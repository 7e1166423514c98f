/** portparser: the ports of a comma-separated list of ports and port ranges. */
module Ports {
  import opened Text
  import opened Tokens

  // ---------- the list that is written ----------

  datatype PortItem = Port(number: nat) | Range(first: nat, last: nat)

  /** The first number is not 0, which would end the stream. */
  predicate ValidItem(i: PortItem) { First(i) > 0 }

  function First(i: PortItem): nat {
    match i
    case Port(n) => n
    case Range(a, _) => a
  }

  predicate IsRange(i: PortItem) { i.Range? && 0 < i.first < i.last < 65536 }

  function PrintItem(i: PortItem): string {
    match i
    case Port(n) => Decimal(n)
    case Range(a, b) => Decimal(a) + "-" + Decimal(b)
  }

  function PrintItems(items: seq<PortItem>): seq<string> {
    if items == [] then [] else [PrintItem(items[0])] + PrintItems(items[1..])
  }

  /** The ports from a to b. */
  function Span(a: int, b: int): (r: seq<int>)
    decreases b - a
  {
    if a > b then [] else [a] + Span(a + 1, b)
  }

  /** The ports of the list. Of a pair that is no range it is the first number, as the
      documentation of the class says. */
  function Expand(items: seq<PortItem>): seq<int> {
    if items == [] then []
    else (if IsRange(items[0]) then Span(items[0].first, items[0].last) else [First(items[0])]) + Expand(items[1..])
  }

  lemma {:induction false} SpanAt(a: int, b: int, k: nat)
    requires a + k <= b
    ensures |Span(a, b)| == b - a + 1 && Span(a, b)[k] == a + k
    decreases b - a
  {
    if a < b { SpanAt(a + 1, b, if k > 0 then k - 1 else 0); }
  }

  /** A pair expands to the ports in between, both included, exactly if both are ports and in
      order, and otherwise to its first number. */
  lemma PairExpands(a: nat, b: nat, k: nat)
    ensures var ports := Expand([Range(a, b)]);
            if 1 <= a < b <= 65535 then |ports| == b - a + 1 && (a + k <= b ==> ports[k] == a + k) else ports == [a]
    ensures Expand([Port(a)]) == [a]
  {
    hide Span;
    assert [Range(a, b)][1..] == [] && [Port(a)][1..] == [];
    assert Span(a, b) + [] == Span(a, b);
    if a <= b { SpanAt(a, b, if a + k <= b then k else 0); }
  }

  lemma {:induction false} PrintedAreClean(items: seq<PortItem>)
    ensures CleanTokens(PrintItems(items), ',') && |PrintItems(items)| == |items|
    decreases |items|
  {
    if items != [] {
      PrintedAreClean(items[1..]);
      ItemIsClean(items[0]);
    }
  }

  lemma ItemIsClean(i: PortItem)
    ensures PrintItem(i) != "" && ',' !in PrintItem(i)
  {
    match i {
      case Port(n) => assert forall c :: c in Decimal(n) ==> IsDigit(c);
      case Range(a, b) =>
        assert forall c :: c in Decimal(a) ==> IsDigit(c);
        assert forall c :: c in Decimal(b) ==> IsDigit(c);
    }
  }

  // ---------- atoi in front of a dash ----------

  lemma {:induction false} DigitsStop(s: string, k: nat, acc: int)
    requires k < |s| && !IsDigit(s[k])
    ensures Digits(s[..k], acc) == Digits(s, acc)
    decreases k
  {
    if k > 0 && IsDigit(s[0]) {
      assert s[..k][1..] == s[1..][..k - 1];
      DigitsStop(s[1..], k - 1, acc * 10 + (s[0] as int) - ('0' as int));
    }
  }

  lemma SkipOne(s: string)
    ensures SkipSpaces(s) == if s != "" && s[0] in SPACES then SkipSpaces(s[1..]) else s
  {
  }

  lemma {:induction false} SkipSpacesPrefix(x: string, d: nat) returns (p: nat)
    requires d < |x|
    ensures p <= d && SkipSpaces(x[..d]) == x[p..d]
    ensures p < d ==> SkipSpaces(x) == x[p..]
    decreases d
  {
    hide SkipSpaces;
    SkipOne(x);
    SkipOne(x[..d]);
    if d == 0 || x[0] !in SPACES {
      p := 0;
      assert x[0..] == x && x[0..d] == x[..d];
    } else {
      var rest := x[1..];
      p := SkipSpacesPrefix(rest, d - 1);
      assert x[..d][1..] == rest[..d - 1];
      assert rest[p..] == x[p + 1..] && rest[p..d - 1] == x[p + 1..d];
      p := p + 1;
    }
  }

  /** The number in front of a dash is the number of the whole, unless it is missing. */
  lemma AtoiPrefix(x: string, d: nat)
    requires d < |x| && x[d] == '-'
    ensures Atoi(x[..d]) == Atoi(x) || Atoi(x[..d]) == 0
  {
    hide SkipSpaces, Digits;
    var p := SkipSpacesPrefix(x, d);
    if p == d {
      NoDigits();
    } else {
      var t := x[p..];
      assert x[p..d] == t[..d - p] && t[d - p] == '-';
      SignedDigitsStop(t, d - p);
    }
  }

  lemma NoDigits()
    ensures Digits("", 0) == 0
  {
  }

  lemma SignedDigitsStop(t: string, k: nat)
    requires 0 < k < |t| && t[k] == '-'
    ensures Signed(t[..k]) == Signed(t)
  {
    hide Digits;
    if t[0] == '-' || t[0] == '+' {
      assert t[..k][1..] == t[1..][..k - 1];
      DigitsStop(t[1..], k - 1, 0);
    } else {
      DigitsStop(t, k, 0);
    }
  }

  lemma AtoiOfPrinted(i: PortItem)
    requires ValidItem(i)
    ensures i.Port? ==> Atoi(PrintItem(i)) == i.number && Rfind(PrintItem(i), '-', |PrintItem(i)|) == -1
    ensures i.Range? ==> Atoi(PrintItem(i)) == i.first
    ensures i.Range? ==>
              var x := PrintItem(i); var d := Rfind(x, '-', |x|);
              && d == |Decimal(i.first)| && Atoi(x[..d]) == i.first && Atoi(x[d + 1..]) == i.last
  {
    match i {
      case Port(n) => AtoiDecimal(n);
      case Range(a, b) =>
        var x := PrintItem(i);
        AtoiDecimal(a);
        AtoiDecimal(b);
        var d := |Decimal(a)|;
        assert x[d] == '-' && x[..d] == Decimal(a) && x[d + 1..] == Decimal(b);
        assert forall j :: d < j < |x| ==> x[j] == Decimal(b)[j - d - 1];
        AtoiPrefix(x, d);
    }
  }

  // ---------- what the parser makes of a list ----------

  /** The ports returned, the ports that items and ranges lead to, and the numbers that were
      marked as seen without being returned. */
  datatype Trace = Trace(out: seq<int>, reached: set<int>, marked: set<int>)

  function Mark(tracking: bool, seen: set<int>, ports: set<int>): set<int> {
    if tracking then seen + ports else seen
  }

  /** The ports from a to b that have not been seen. */
  function Unseen(seen: set<int>, a: int, b: int): seq<int>
    decreases b - a
  {
    if a > b then [] else (if a in seen then [] else [a]) + Unseen(seen, a + 1, b)
  }

  function Between(a: int, b: int): (r: set<int>)
    ensures forall p :: p in r <==> a <= p <= b
    decreases b - a
  {
    if a > b then {} else {a} + Between(a + 1, b)
  }

  /** The range that the parser is in after an item: a pair that is no range only moves the
      end, and of a range that was left behind its end that end is used again. */
  function Enter(i: PortItem, inRange: int, rangeEnd: int): (int, int) {
    if IsRange(i) then (i.first, i.last) else if i.Range? then (inRange, i.last) else (inRange, rangeEnd)
  }

  /** From the next item on. An item whose first port has been seen is skipped. */
  function FromItem(tracking: bool, seen: set<int>, inRange: int, rangeEnd: int, items: seq<PortItem>): Trace
    decreases |items|, 0
  {
    if items == [] then Trace([], {}, {})
    else
      var port := First(items[0]);
      if port in seen then FromItem(tracking, seen, inRange, rangeEnd, items[1..])
      else
        var (begin, end) := Enter(items[0], inRange, rangeEnd);
        var t := FromRange(tracking, Mark(tracking, seen, {port}), begin, end, items[1..]);
        Trace([port] + t.out, {port} + t.reached, t.marked)
  }

  /** From the next port of the range on. If the last port of the range has been seen, the
      one behind it is marked too, and the parser stays in the range. */
  function FromRange(tracking: bool, seen: set<int>, inRange: int, rangeEnd: int, items: seq<PortItem>): Trace
    decreases |items|, 1
  {
    if 0 < inRange < rangeEnd then
      var walked, behind := Between(inRange + 1, rangeEnd), {rangeEnd + 1};
      var unseen, after := Unseen(seen, inRange + 1, rangeEnd), Mark(tracking, seen, walked);
      if rangeEnd in seen then
        var t := FromItem(tracking, Mark(tracking, after, behind), rangeEnd + 1, rangeEnd, items);
        Trace(unseen + t.out, walked + t.reached, behind - seen + t.marked)
      else
        var t := FromItem(tracking, after, 0, rangeEnd, items);
        Trace(unseen + t.out, walked + t.reached, t.marked)
    else FromItem(tracking, seen, 0, rangeEnd, items)
  }

  /** All that the parser makes of a list. */
  function Parsed(tracking: bool, items: seq<PortItem>): Trace { FromItem(tracking, {}, 0, 0, items) }

  lemma {:induction false} UnseenNone(seen: set<int>, a: int, b: int)
    requires forall p :: a <= p <= b ==> p in seen
    ensures Unseen(seen, a, b) == []
    decreases b - a
  {
    if a <= b { UnseenNone(seen, a + 1, b); }
  }

  lemma {:induction false} UnseenFirst(seen: set<int>, a: int, k: int, b: int)
    requires a <= k <= b && k !in seen && forall p :: a <= p < k ==> p in seen
    ensures Unseen(seen, a, b) == [k] + Unseen(seen, k + 1, b)
    decreases k - a
  {
    if a < k { UnseenFirst(seen, a + 1, k, b); }
  }

  /** The first unseen port is the first of the unseen ones. */
  lemma UnseenAt(seen: set<int>, a: int, k: int, b: int)
    requires a <= k <= b && k !in seen && forall p :: a <= p < k ==> p in seen
    ensures Unseen(seen, a, b) != [] && Unseen(seen, a, b)[0] == k
  {
    UnseenFirst(seen, a, k, b);
  }

  lemma {:induction false} UnseenIs(seen: set<int>, a: int, b: int, p: int)
    ensures p in Unseen(seen, a, b) <==> a <= p <= b && p !in seen
    decreases b - a
  {
    if a <= b { UnseenIs(seen, a + 1, b, p); }
  }

  lemma {:induction false} UnseenHead(seen: set<int>, a: int, b: int)
    ensures var u := Unseen(seen, a, b);
            if u == [] then forall p :: a <= p <= b ==> p in seen
            else a <= u[0] <= b && u[0] !in seen && forall p :: a <= p < u[0] ==> p in seen
    decreases b - a
  {
    if a <= b { UnseenHead(seen, a + 1, b); }
  }

  lemma {:induction false} UnseenElsewhere(seen: set<int>, w: int, a: int, b: int)
    requires w < a
    ensures Unseen(seen + {w}, a, b) == Unseen(seen, a, b)
    decreases b - a
  {
    if a <= b { UnseenElsewhere(seen, w, a + 1, b); }
  }

  /** A seen item is skipped, and another one returns its first port. */
  lemma ItemStep(tracking: bool, seen: set<int>, inRange: int, rangeEnd: int, items: seq<PortItem>)
    ensures var t := FromItem(tracking, seen, inRange, rangeEnd, items);
            if items == [] then t.out == []
            else
              var port, rest := First(items[0]), items[1..];
              if port in seen then t == FromItem(tracking, seen, inRange, rangeEnd, rest)
              else
                var (begin, end) := Enter(items[0], inRange, rangeEnd);
                t.out == [port] + FromRange(tracking, Mark(tracking, seen, {port}), begin, end, rest).out
  {
    hide FromRange;
  }

  /** Behind the end of a range the next item comes. */
  lemma RangeOver(tracking: bool, seen: set<int>, inRange: int, rangeEnd: int, items: seq<PortItem>)
    requires inRange <= 0 || inRange >= rangeEnd
    ensures FromRange(tracking, seen, inRange, rangeEnd, items) == FromItem(tracking, seen, 0, rangeEnd, items)
  {
    hide FromItem;
  }

  /** Inside a range the next unseen port comes, and behind the last one the next item. */
  lemma RangeStep(tracking: bool, seen: set<int>, inRange: int, rangeEnd: int, items: seq<PortItem>)
    requires 0 < inRange < rangeEnd && (tracking || seen == {})
    ensures var u := Unseen(seen, inRange + 1, rangeEnd);
            var out := FromRange(tracking, seen, inRange, rangeEnd, items).out;
            if u == [] then
              out == FromItem(tracking, Mark(tracking, seen, {rangeEnd + 1}), rangeEnd + 1, rangeEnd, items).out
            else out == [u[0]] + FromRange(tracking, Mark(tracking, seen, {u[0]}), u[0], rangeEnd, items).out
  {
    hide FromItem, FromRange, Unseen;
    UnseenHead(seen, inRange + 1, rangeEnd);
    var u := Unseen(seen, inRange + 1, rangeEnd);
    if u == [] {
      RangeEnds(tracking, seen, inRange, rangeEnd, items);
    } else {
      RangeGoesOn(tracking, seen, inRange, rangeEnd, u[0], items);
    }
  }

  /** All that a range makes of itself, and then the next item. */
  lemma RangeOut(tracking: bool, seen: set<int>, inRange: int, rangeEnd: int, items: seq<PortItem>)
    requires 0 < inRange < rangeEnd
    ensures var after := Mark(tracking, seen, Between(inRange + 1, rangeEnd));
            FromRange(tracking, seen, inRange, rangeEnd, items).out == Unseen(seen, inRange + 1, rangeEnd) +
              if rangeEnd in seen then
                FromItem(tracking, Mark(tracking, after, {rangeEnd + 1}), rangeEnd + 1, rangeEnd, items).out
              else FromItem(tracking, after, 0, rangeEnd, items).out
  {
    hide FromItem, Unseen, Between;
  }

  lemma RangeEnds(tracking: bool, seen: set<int>, inRange: int, rangeEnd: int, items: seq<PortItem>)
    requires 0 < inRange < rangeEnd && Unseen(seen, inRange + 1, rangeEnd) == []
    requires forall p :: inRange < p <= rangeEnd ==> p in seen
    ensures FromRange(tracking, seen, inRange, rangeEnd, items).out
         == FromItem(tracking, Mark(tracking, seen, {rangeEnd + 1}), rangeEnd + 1, rangeEnd, items).out
  {
    hide FromItem, FromRange, Unseen, Between;
    RangeOut(tracking, seen, inRange, rangeEnd, items);
    assert seen + Between(inRange + 1, rangeEnd) == seen;
    PutAside([], 0, [], FromItem(tracking, Mark(tracking, seen, {rangeEnd + 1}), rangeEnd + 1, rangeEnd, items).out);
  }

  lemma RangeGoesOn(tracking: bool, seen: set<int>, inRange: int, rangeEnd: int, w: int, items: seq<PortItem>)
    requires 0 < inRange < w <= rangeEnd && (tracking || seen == {})
    requires w !in seen && forall p :: inRange < p < w ==> p in seen
    ensures FromRange(tracking, seen, inRange, rangeEnd, items).out
         == [w] + FromRange(tracking, Mark(tracking, seen, {w}), w, rangeEnd, items).out
  {
    hide FromItem, FromRange, Unseen, Between;
    var lo := inRange + 1;
    var marked := Mark(tracking, seen, {w});
    RangeOut(tracking, seen, inRange, rangeEnd, items);
    WalkOn(seen, w, lo, rangeEnd);
    if w < rangeEnd {
      RangeOut(tracking, marked, w, rangeEnd, items);
    } else {
      RangeOver(tracking, marked, w, rangeEnd, items);
    }
    var after := Mark(tracking, seen, Between(lo, rangeEnd));
    var begin := if rangeEnd in seen then rangeEnd + 1 else 0;
    var last := if rangeEnd in seen then Mark(tracking, after, {rangeEnd + 1}) else after;
    PutAside(Unseen(seen, lo, rangeEnd), w, Unseen(seen, w + 1, rangeEnd),
             FromItem(tracking, last, begin, rangeEnd, items).out);
  }

  lemma PutAside(u: seq<int>, w: int, rest: seq<int>, tail: seq<int>)
    ensures [] + tail == tail && (u == [w] + rest ==> u + tail == [w] + (rest + tail))
  {
  }

  /** A walk that has seen the ports in front of w goes on behind w. */
  lemma WalkOn(seen: set<int>, w: int, a: int, b: int)
    requires a <= w <= b && w !in seen && forall p :: a <= p < w ==> p in seen
    ensures Unseen(seen, a, b) == [w] + Unseen(seen + {w}, w + 1, b)
    ensures Unseen(seen, a, b) == [w] + Unseen(seen, w + 1, b)
    ensures seen + Between(a, b) == seen + {w} + Between(w + 1, b)
    ensures w == b ==> Unseen(seen, w + 1, b) == [] && seen + Between(a, b) == seen + {w}
  {
    UnseenFirst(seen, a, w, b);
    UnseenElsewhere(seen, w, w + 1, b);
  }

  // ---------- what comes out ----------

  /** A number comes out exactly if an item or a range leads to it, and it has neither been
      seen before nor is marked on the way. */
  lemma {:induction false} OutIff(seen: set<int>, inRange: int, rangeEnd: int, items: seq<PortItem>, p: int)
    ensures var t := FromItem(true, seen, inRange, rangeEnd, items);
            && t.marked !! seen
            && (p in t.out <==> p in t.reached && p !in seen && p !in t.marked)
    decreases |items|, 0
  {
    hide FromRange, Enter;
    if items != [] {
      var port := First(items[0]);
      if port in seen {
        OutIff(seen, inRange, rangeEnd, items[1..], p);
      } else {
        var (begin, end) := Enter(items[0], inRange, rangeEnd);
        RangeOutIff(seen + {port}, begin, end, items[1..], p);
      }
    }
  }

  lemma {:induction false} RangeOutIff(seen: set<int>, inRange: int, rangeEnd: int, items: seq<PortItem>, p: int)
    ensures var t := FromRange(true, seen, inRange, rangeEnd, items);
            && t.marked !! seen
            && (p in t.out <==> p in t.reached && p !in seen && p !in t.marked)
    decreases |items|, 1
  {
    hide FromItem;
    if 0 < inRange < rangeEnd {
      var walked := Between(inRange + 1, rangeEnd);
      UnseenIs(seen, inRange + 1, rangeEnd, p);
      if rangeEnd in seen {
        OutIff(seen + walked + {rangeEnd + 1}, rangeEnd + 1, rangeEnd, items, p);
      } else {
        OutIff(seen + walked, 0, rangeEnd, items, p);
      }
    } else {
      OutIff(seen, 0, rangeEnd, items, p);
    }
  }

  /** Every port of the list comes out if and only if each stands in an item that is not
      skipped, or in a range that is walked, and none is marked behind a range. */
  lemma EveryPortIff(items: seq<PortItem>)
    ensures var t := Parsed(true, items);
            (forall p :: p in Expand(items) ==> p in t.out) <==>
            (forall p :: p in Expand(items) ==> p in t.reached && p !in t.marked)
  {
    hide FromItem, Expand;
    var t := Parsed(true, items);
    forall p ensures p in t.out <==> p in t.reached && p !in t.marked { OutIff({}, 0, 0, items, p); }
  }

  /** In a list without ranges a repeat loses nothing. */
  lemma {:induction false} SinglePortsAreKept(seen: set<int>, rangeEnd: int, items: seq<PortItem>)
    requires forall i :: 0 <= i < |items| ==> items[i].Port?
    ensures forall p :: p in Expand(items) && p !in seen ==> p in FromItem(true, seen, 0, rangeEnd, items).out
    decreases |items|
  {
    if items != [] {
      var item, rest := items[0], items[1..];
      assert forall i :: 0 <= i < |rest| ==> rest[i] == items[i + 1];
      SinglePortsAreKept(seen, rangeEnd, rest);
      SinglePortsAreKept(seen + {First(item)}, rangeEnd, rest);
    }
  }

  /** Nothing else comes out where every pair of the list is a range. */
  lemma {:induction false} NothingInvented(seen: set<int>, inRange: int, rangeEnd: int, items: seq<PortItem>)
    requires inRange == 0 || inRange >= rangeEnd
    requires forall i :: 0 <= i < |items| && items[i].Range? ==> IsRange(items[i])
    ensures forall p :: p in FromItem(true, seen, inRange, rangeEnd, items).reached ==> p in Expand(items)
    decreases |items|
  {
    if items != [] {
      var item, rest := items[0], items[1..];
      assert forall i :: 0 <= i < |rest| ==> rest[i] == items[i + 1];
      if First(item) in seen {
        NothingInvented(seen, inRange, rangeEnd, rest);
      } else if IsRange(item) {
        var seen1 := seen + {item.first};
        var walked := Between(item.first + 1, item.last);
        SpanIs(item.first, item.last);
        NothingInvented(seen1 + walked + {item.last + 1}, item.last + 1, item.last, rest);
        NothingInvented(seen1 + walked, 0, item.last, rest);
      } else {
        NothingInvented(seen + {First(item)}, 0, rangeEnd, rest);
      }
    }
  }

  lemma {:induction false} SpanIs(a: int, b: int)
    ensures forall p :: p in Span(a, b) <==> a <= p <= b
    decreases b - a
  {
    if a <= b { SpanIs(a + 1, b); }
  }

  /** With tracking on, these ports can all be returned. */
  ghost predicate Untouched(tracking: bool, seen: set<int>, ports: seq<int>) {
    if tracking then Distinct(ports) && forall p :: p in ports ==> p !in seen else seen == {}
  }

  lemma UntouchedStep(tracking: bool, seen: set<int>, a: seq<int>, b: seq<int>, s: set<int>)
    requires Untouched(tracking, seen, a + b) && forall p :: p in s ==> p in a
    ensures Untouched(tracking, Mark(tracking, seen, s), b)
    ensures forall p :: p in a ==> p !in seen
  {
    hide Distinct;
    DistinctParts(a, b);
    assert forall p :: p in a || p in b ==> p in a + b;
  }

  /** A list that names no port twice, and any list without tracking, comes out as it is. */
  lemma {:induction false} DistinctIsExpanded(tracking: bool, seen: set<int>, rangeEnd: int, items: seq<PortItem>)
    requires Untouched(tracking, seen, Expand(items))
    ensures FromItem(tracking, seen, 0, rangeEnd, items).out == Expand(items)
    decreases |items|
  {
    hide Untouched, FromItem, FromRange, Between, Mark, Expand, Span;
    ItemStep(tracking, seen, 0, rangeEnd, items);
    ExpandStep(items);
    if items != [] {
      var item, rest := items[0], items[1..];
      var port := First(item);
      if IsRange(item) {
        DistinctRange(tracking, seen, port, item.last, rest);
        var after := Mark(tracking, Mark(tracking, seen, {port}), Between(port + 1, item.last));
        DistinctIsExpanded(tracking, after, item.last, rest);
        PutAside(Span(port, item.last), port, Span(port + 1, item.last), Expand(rest));
      } else {
        UntouchedStep(tracking, seen, [port], Expand(rest), {port});
        var (begin, end) := Enter(item, 0, rangeEnd);
        RangeOver(tracking, Mark(tracking, seen, {port}), begin, end, rest);
        DistinctIsExpanded(tracking, Mark(tracking, seen, {port}), end, rest);
      }
    }
  }

  lemma ExpandStep(items: seq<PortItem>)
    ensures if items == [] then Expand(items) == []
            else
              var port, tail := First(items[0]), Expand(items[1..]);
              if IsRange(items[0]) then
                var b := items[0].last;
                0 < port < b && Expand(items) == Span(port, b) + tail && Span(port, b) == [port] + Span(port + 1, b)
              else Expand(items) == [port] + tail
  {
  }

  lemma DistinctRange(tracking: bool, seen: set<int>, a: int, b: int, rest: seq<PortItem>)
    requires 0 < a < b && Untouched(tracking, seen, Span(a, b) + Expand(rest))
    ensures a !in seen
    ensures var seen1 := Mark(tracking, seen, {a});
            var after := Mark(tracking, seen1, Between(a + 1, b));
            && Untouched(tracking, after, Expand(rest))
            && FromRange(tracking, seen1, a, b, rest).out == Span(a + 1, b) + FromItem(tracking, after, 0, b, rest).out
  {
    hide Expand, FromItem, Between, Distinct, Untouched, Unseen, Span;
    var seen1, walked := Mark(tracking, seen, {a}), Between(a + 1, b);
    SpanIs(a, b);
    UntouchedStep(tracking, seen, Span(a, b), Expand(rest), {a} + walked);
    assert Mark(tracking, seen1, walked) == Mark(tracking, seen, {a} + walked) by {
      assert seen + {a} + walked == seen + ({a} + walked);
    }
    assert a in Span(a, b) && b in Span(a, b);
    forall p | a < p <= b ensures p !in seen1 { assert p in Span(a, b); }
    UnseenAll(seen1, a + 1, b);
  }

  lemma {:induction false} UnseenAll(seen: set<int>, a: int, b: int)
    requires forall p :: a <= p <= b ==> p !in seen
    ensures Unseen(seen, a, b) == Span(a, b)
    decreases b - a
  {
    if a <= b { UnseenAll(seen, a + 1, b); }
  }

  lemma DistinctParts(a: seq<int>, b: seq<int>)
    ensures Distinct(a + b) ==> Distinct(b) && forall p :: p in a ==> p !in b
  {
    if Distinct(a + b) {
      forall i, j | 0 <= i < j < |b| ensures b[i] != b[j] {
        assert (a + b)[|a| + i] == b[i] && (a + b)[|a| + j] == b[j];
      }
      forall i, j | 0 <= i < |a| && 0 <= j < |b| ensures a[i] != b[j] {
        assert (a + b)[i] == a[i] && (a + b)[|a| + j] == b[j];
      }
    }
  }

  /** A repeated port costs another one: behind a range whose last port has been seen, the
      one after it is lost. */
  lemma RepeatLosesAPort()
    ensures Parsed(true, [Port(8), Range(7, 8), Port(9)]).out == [8, 7]
  {
    hide FromItem, FromRange;
    var items := [Port(8), Range(7, 8), Port(9)];
    ItemStep(true, {}, 0, 0, items);
    assert items[1..] == [Range(7, 8), Port(9)];
    RangeOver(true, {8}, 0, 0, items[1..]);
    ItemStep(true, {8}, 0, 0, items[1..]);
    assert items[1..][1..] == [Port(9)];
    RangeStep(true, {8, 7}, 7, 8, [Port(9)]);
    assert {} + {8} == {8} && {8} + {7} == {8, 7} && {8, 7} + {9} == {8, 7, 9};
    assert Unseen({8, 7}, 8, 8) == [];
    ItemStep(true, {8, 7, 9}, 9, 8, [Port(9)]);
    assert [Port(9)][1..] == [];
    ItemStep(true, {8, 7, 9}, 9, 8, []);
  }

  /** A pair that is no range then makes the parser walk on: 4 is not in the list. */
  lemma PairInventsAPort()
    ensures Parsed(true, [Port(2), Range(1, 2), Range(9, 4)]).out == [2, 1, 9, 4]
    ensures 4 !in Expand([Port(2), Range(1, 2), Range(9, 4)])
  {
    hide FromItem, FromRange, Unseen, Expand;
    var pair := [Range(9, 4)];
    var items := [Port(2), Range(1, 2)] + pair;
    assert items == [Port(2), Range(1, 2), Range(9, 4)];
    assert items[1..] == [Range(1, 2)] + pair && items[1..][1..] == pair;
    ItemStep(true, {}, 0, 0, items);
    RangeOver(true, {2}, 0, 0, items[1..]);
    ItemStep(true, {2}, 0, 0, items[1..]);
    assert {} + {2} == {2} && {2} + {1} == {2, 1} && {2, 1} + {3} == {2, 1, 3};
    UnseenNone({2, 1}, 2, 2);
    RangeStep(true, {2, 1}, 1, 2, pair);
    BehindARange();
    PairsExpanded();
  }

  /** Behind the range from 1 to 2, the pair moves the end of the range to 4. */
  lemma BehindARange()
    ensures FromItem(true, {2, 1, 3}, 3, 2, [Range(9, 4)]).out == [9, 4]
  {
    hide FromItem, FromRange, Unseen;
    ItemStep(true, {2, 1, 3}, 3, 2, [Range(9, 4)]);
    assert [Range(9, 4)][1..] == [];
    var seen := {2, 1, 3} + {9};
    WalkOn(seen, 4, 4, 4);
    RangeStep(true, seen, 3, 4, []);
    RangeOver(true, seen + {4}, 4, 4, []);
    ItemStep(true, seen + {4}, 0, 4, []);
  }

  lemma PairsExpanded()
    ensures 4 !in Expand([Port(2), Range(1, 2), Range(9, 4)])
  {
    var items := [Port(2), Range(1, 2), Range(9, 4)];
    assert items[1..] == [Range(1, 2), Range(9, 4)] && items[1..][1..] == [Range(9, 4)] && [Range(9, 4)][1..] == [];
    assert Expand([Range(9, 4)]) == [9] + Expand([]);
    assert Span(1, 2) == [1] + Span(2, 2) && Span(2, 2) == [2] + Span(3, 2);
  }

  // ---------- the class ----------

  class PortParser {
    const sep: SepStream
    const overlapped: bool
    var inRange: int
    var rangeBegin: int
    var rangeEnd: int
    var overlapSet: set<int>

    ghost predicate Valid()
      reads this, sep
    {
      sep.Valid() && inRange >= 0
    }

    constructor (source: string, allowOverlapped: bool)
      ensures Valid() && fresh(sep) && overlapped == allowOverlapped && overlapSet == {} && inRange == 0 == rangeEnd
      ensures sep.tokens == source && sep.sep == ',' && sep.n == 0 && sep.lastStartingPosition == 0
    {
      sep := new SepStream(source, ',');
      inRange, rangeBegin, rangeEnd, overlapSet := 0, 0, 0, {};
      overlapped := allowOverlapped;
    }

    /** These items are still to come, behind the rest of the current range. */
    ghost predicate Ahead(items: seq<PortItem>)
      reads this, sep
    {
      && Valid() && sep.sep == ',' && (overlapped || overlapSet == {})
      && (forall i :: 0 <= i < |items| ==> ValidItem(items[i]))
      && sep.Ahead(PrintItems(items))
    }

    /** The ports that will be returned. */
    ghost function Coming(items: seq<PortItem>): seq<int>
      reads this
    {
      FromRange(overlapped, overlapSet, inRange, rangeEnd, items).out
    }

    /** What decreases with every port that is returned. */
    ghost function Progress(): (int, int)
      reads this, sep
    {
      (sep.Left(), if 0 < inRange <= rangeEnd then rangeEnd - inRange else 0)
    }

    method Overlaps(val: int) returns (r: bool)
      modifies this`overlapSet
      ensures !overlapped ==> !r && overlapSet == old(overlapSet)
      ensures overlapped ==> (r <==> val in old(overlapSet)) && overlapSet == old(overlapSet) + {val}
    {
      if !overlapped { return false; }
      r := val in overlapSet;
      overlapSet := overlapSet + {val};
    }

    /** Lines 165-185 of GetToken: the next port of the current range that has not been seen,
        or 0; then the number behind the range is marked too. */
    method NextInRange() returns (r: int)
      requires inRange > 0 && (overlapped || overlapSet == {})
      modifies this`inRange, this`overlapSet
      ensures old(inRange) >= rangeEnd ==> r == 0 == inRange && overlapSet == old(overlapSet)
      ensures old(inRange) < rangeEnd ==>
                var u := Unseen(old(overlapSet), old(inRange) + 1, rangeEnd);
                if u == [] then
                  r == 0 && inRange == rangeEnd + 1 && overlapSet == Mark(overlapped, old(overlapSet), {inRange})
                else
                  && r == inRange == u[0] && overlapSet == Mark(overlapped, old(overlapSet), {r})
                  && old(inRange) < r <= rangeEnd && r !in old(overlapSet)
    {
      hide Unseen;
      ghost var lo, was := inRange + 1, overlapSet;
      inRange := inRange + 1;
      UnseenHead(was, lo, rangeEnd);
      if inRange <= rangeEnd {
        var seen := Overlaps(inRange);
        if !seen {
          UnseenAt(was, lo, lo, rangeEnd);
          return inRange;
        }
        while true
          invariant overlapped && overlapSet == was && lo <= inRange <= rangeEnd + 1
          invariant forall p :: lo <= p < inRange ==> p in was
          modifies this`inRange, this`overlapSet
          decreases rangeEnd + 1 - inRange
        {
          seen := Overlaps(inRange);
          if !seen || inRange > rangeEnd {
            if inRange <= rangeEnd {
              UnseenAt(was, lo, inRange, rangeEnd);
              return inRange;
            }
            UnseenNone(was, lo, rangeEnd);
            break;
          }
          inRange := inRange + 1;
        }
      } else {
        inRange := 0;
      }
      r := 0;
    }

    /** The next port, or 0 when none is left; left is the part of items that is still ahead. */
    method GetToken(ghost items: seq<PortItem>) returns (r: int, ghost left: seq<PortItem>)
      requires Valid() && (overlapped || overlapSet == {})
      modifies this, sep
      ensures Valid() && old(overlapSet) <= overlapSet && (overlapped || overlapSet == {})
      // with tracking on, no port is returned twice
      ensures overlapped && r != 0 ==> r !in old(overlapSet) && r in overlapSet
      ensures r != 0 ==> Progress().0 < old(Progress()).0 ||
                         (Progress().0 == old(Progress()).0 && 0 <= Progress().1 < old(Progress()).1)
      // the ports come that the list leads to
      ensures old(Ahead(items)) ==>
                if old(Coming(items)) == [] then r == 0
                else r == old(Coming(items))[0] && Ahead(left) && Coming(left) == old(Coming(items))[1..]
    {
      hide PrintItems, ValidItem, SepStream.Ahead, FromItem, FromRange, Unseen;
      left := items;
      ghost var known := Ahead(items);
      if 0 < inRange < rangeEnd {
        RangeStep(overlapped, overlapSet, inRange, rangeEnd, items);
      } else {
        RangeOver(overlapped, overlapSet, inRange, rangeEnd, items);
      }
      if inRange > 0 {
        r := NextInRange();
        if r != 0 { return; }
      }
      ghost var word;
      r, left, word := NextItem(items, known);
    }

    /** Lines 187-221 of GetToken; word is the item that was read, or empty when none was left. */
    method NextItem(ghost items: seq<PortItem>, ghost known: bool)
      returns (r: int, ghost left: seq<PortItem>, ghost word: string)
      requires Valid() && (overlapped || overlapSet == {})
      requires known ==> Ahead(items)
      modifies this, sep
      ensures Valid() && old(overlapSet) <= overlapSet && (overlapped || overlapSet == {})
      ensures overlapped && r != 0 ==> r !in old(overlapSet) && r in overlapSet
      ensures r != 0 ==> Progress().0 < old(Progress()).0
      ensures word == "" ==> r == 0
      ensures word != "" ==>
                && Means(word, r, old(inRange), old(rangeEnd), inRange, rangeEnd)
                && (overlapped ==> Atoi(word) !in old(overlapSet))
      ensures known ==>
                var coming := FromItem(overlapped, old(overlapSet), old(inRange), old(rangeEnd), items).out;
                if coming == [] then r == 0
                else r == coming[0] && Ahead(left) && Coming(left) == coming[1..]
    {
      hide Atoi, Rfind, PrintItem, PrintItems, ValidItem, SepStream.Ahead, FromItem, FromRange, Trail, Means, Enter,
           Stop, Stripped, First, SepStream.Valid, SepStream.Left;
      ghost var was, todo := overlapSet, items;
      if known { TrailStarts(overlapped, was, inRange, rangeEnd, items); }
      var more, x := sep.GetToken(PrintItems(todo));
      if x == "" { return 0, [], ""; }
      var seen := Overlaps(Atoi(x));
      while seen
        invariant Valid() && (seen ==> overlapped) && (overlapped || overlapSet == {})
        invariant inRange == old(inRange) && rangeEnd == old(rangeEnd)
        invariant 0 <= sep.Left() < old(sep.Left())
        invariant was <= overlapSet
        invariant !seen && overlapped ==> Atoi(x) !in was && Atoi(x) in overlapSet
        invariant known ==>
                    && todo != [] && x == PrintItem(todo[0]) && Says(x, todo[0]) && sep.Ahead(PrintItems(todo[1..]))
                    && Trail(overlapped, was, inRange, rangeEnd, todo, items)
                    && (seen <==> overlapped && First(todo[0]) in was)
                    && overlapSet == Mark(overlapped, was, {First(todo[0])})
        decreases sep.Left(), seen
      {
        if known {
          assert overlapSet == was;
          TrailGoesOn(overlapped, was, inRange, rangeEnd, todo, items);
          todo := todo[1..];
        }
        more, x := sep.GetToken(PrintItems(todo));
        if !more { return 0, [], ""; }
        seen := Overlaps(Atoi(x));
      }
      if known { TrailEnds(overlapped, was, inRange, rangeEnd, todo, items); }
      left, word := if known then todo[1..] else [], x;
      r := ReadItem(x);
      MeansFirst(x, r, old(inRange), old(rangeEnd), inRange, rangeEnd);
      if known { MeansItem(x, todo[0], r, old(inRange), old(rangeEnd), inRange, rangeEnd); }
    }

    /** Lines 199-221 of GetToken: what one item of the list says. */
    method ReadItem(x: string) returns (r: int)
      modifies this`inRange, this`rangeBegin, this`rangeEnd
      ensures Means(x, r, old(inRange), old(rangeEnd), inRange, rangeEnd)
    {
      hide Atoi, Rfind;
      var dash := Rfind(x, '-', |x|);
      if dash != -1 {
        var sbegin, send := x[..dash], x[dash + 1..];
        rangeBegin, rangeEnd := Atoi(sbegin), Atoi(send);
        if rangeBegin > 0 && rangeEnd > 0 && rangeBegin < 65536 && rangeEnd < 65536 && rangeBegin < rangeEnd {
          inRange := rangeBegin;
          return inRange;
        } else {
          return Atoi(sbegin);
        }
      } else {
        return Atoi(x);
      }
    }
  }

  /** What an item returns, and the range that the parser is in behind it: around the last dash
      it is a range if both numbers are ports and in order; otherwise its first number counts. */
  ghost predicate Means(x: string, r: int, inRange: int, rangeEnd: int, newRange: int, newEnd: int) {
    var d := Rfind(x, '-', |x|);
    if d == -1 then r == Atoi(x) && newRange == inRange && newEnd == rangeEnd
    else
      var first, last := Atoi(x[..d]), Atoi(x[d + 1..]);
      && r == first && newEnd == last
      && newRange == if 0 < first < last < 65536 then first else inRange
  }

  /** The number that is returned is the one that was looked up, or 0. */
  lemma MeansFirst(x: string, r: int, inRange: int, rangeEnd: int, newRange: int, newEnd: int)
    requires Means(x, r, inRange, rangeEnd, newRange, newEnd)
    ensures (r == Atoi(x) || r == 0) && (x == "" ==> r == 0) && (inRange >= 0 ==> newRange >= 0)
  {
    hide Atoi, Rfind;
    var d := Rfind(x, '-', |x|);
    if d != -1 { AtoiPrefix(x, d); }
    AtoiOfNothing();
  }

  lemma AtoiOfNothing()
    ensures Atoi("") == 0
  {
  }

  lemma MeansItem(x: string, i: PortItem, r: int, inRange: int, rangeEnd: int, newRange: int, newEnd: int)
    requires Means(x, r, inRange, rangeEnd, newRange, newEnd) && Says(x, i)
    ensures r == First(i) && (newRange, newEnd) == Enter(i, inRange, rangeEnd)
  {
    hide Atoi, Rfind;
  }

  /** What the text of an item tells the parser. */
  ghost predicate Says(x: string, i: PortItem) {
    var d := Rfind(x, '-', |x|);
    && x != "" && Atoi(x) == First(i)
    && if i.Port? then d == -1 else d != -1 && Atoi(x[..d]) == i.first && Atoi(x[d + 1..]) == i.last
  }

  lemma HeadIsPrinted(items: seq<PortItem>)
    requires items != [] ==> ValidItem(items[0])
    ensures ComesNext(items)
  {
    hide PrintItem, Rfind, Atoi, Decimal, Digits, SkipSpaces, At, Find;
    if items != [] {
      AtoiOfPrinted(items[0]);
      ItemIsClean(items[0]);
    }
  }

  /** The items in front of todo are skipped. */
  ghost predicate Trail(tracking: bool, seen: set<int>, inRange: int, rangeEnd: int, todo: seq<PortItem>,
                        items: seq<PortItem>) {
    && (forall i :: 0 <= i < |todo| ==> ValidItem(todo[i]))
    && FromItem(tracking, seen, inRange, rangeEnd, todo) == FromItem(tracking, seen, inRange, rangeEnd, items)
  }

  /** What the stream delivers next. */
  ghost predicate ComesNext(todo: seq<PortItem>) {
    if todo == [] then PrintItems(todo) == []
    else PrintItems(todo) == [PrintItem(todo[0])] + PrintItems(todo[1..]) && Says(PrintItem(todo[0]), todo[0])
  }

  lemma TrailStarts(tracking: bool, seen: set<int>, inRange: int, rangeEnd: int, items: seq<PortItem>)
    requires forall i :: 0 <= i < |items| ==> ValidItem(items[i])
    ensures Trail(tracking, seen, inRange, rangeEnd, items, items) && ComesNext(items)
    ensures items == [] ==> FromItem(tracking, seen, inRange, rangeEnd, items).out == []
  {
    hide FromItem, PrintItems, Says, ValidItem;
    ItemStep(tracking, seen, inRange, rangeEnd, items);
    HeadIsPrinted(items);
  }

  lemma TrailGoesOn(tracking: bool, seen: set<int>, inRange: int, rangeEnd: int, todo: seq<PortItem>,
                    items: seq<PortItem>)
    requires Trail(tracking, seen, inRange, rangeEnd, todo, items) && todo != [] && First(todo[0]) in seen
    ensures Trail(tracking, seen, inRange, rangeEnd, todo[1..], items) && ComesNext(todo[1..])
    ensures todo[1..] == [] ==> FromItem(tracking, seen, inRange, rangeEnd, items).out == []
  {
    hide FromItem, PrintItems, Says, ValidItem;
    var rest := todo[1..];
    forall i | 0 <= i < |rest| ensures ValidItem(rest[i]) { assert rest[i] == todo[i + 1]; }
    ItemStep(tracking, seen, inRange, rangeEnd, todo);
    ItemStep(tracking, seen, inRange, rangeEnd, rest);
    HeadIsPrinted(rest);
  }

  lemma TrailEnds(tracking: bool, seen: set<int>, inRange: int, rangeEnd: int, todo: seq<PortItem>,
                  items: seq<PortItem>)
    requires Trail(tracking, seen, inRange, rangeEnd, todo, items) && todo != [] && First(todo[0]) !in seen
    ensures var (begin, end) := Enter(todo[0], inRange, rangeEnd);
            var port, rest := First(todo[0]), todo[1..];
            FromItem(tracking, seen, inRange, rangeEnd, items).out
              == [port] + FromRange(tracking, Mark(tracking, seen, {port}), begin, end, rest).out
    ensures forall i :: 0 <= i < |todo[1..]| ==> ValidItem(todo[1..][i])
  {
    hide FromItem, FromRange, ValidItem;
    ItemStep(tracking, seen, inRange, rangeEnd, todo);
  }

  lemma {:induction false} UnseenIsPositive(seen: set<int>, a: int, b: int)
    requires a > 0
    ensures Positive(Unseen(seen, a, b))
    decreases b - a
  {
    if a <= b { UnseenIsPositive(seen, a + 1, b); }
  }

  ghost predicate Positive(s: seq<int>) { forall i :: 0 <= i < |s| ==> s[i] > 0 }

  /** The parser never returns the 0 that ends the stream before the list is over. */
  lemma {:induction false} ParsedIsPositive(tracking: bool, seen: set<int>, inRange: int, rangeEnd: int,
                                            items: seq<PortItem>)
    requires forall i :: 0 <= i < |items| ==> ValidItem(items[i])
    ensures Positive(FromItem(tracking, seen, inRange, rangeEnd, items).out)
    decreases |items|, 0
  {
    hide FromRange, Enter;
    if items != [] {
      var port, rest := First(items[0]), items[1..];
      assert ValidItem(items[0]);
      forall i | 0 <= i < |rest| ensures ValidItem(rest[i]) { assert ValidItem(items[i + 1]); }
      if port in seen {
        ParsedIsPositive(tracking, seen, inRange, rangeEnd, rest);
      } else {
        var (begin, end) := Enter(items[0], inRange, rangeEnd);
        RangeIsPositive(tracking, Mark(tracking, seen, {port}), begin, end, rest);
      }
    }
  }

  lemma {:induction false} RangeIsPositive(tracking: bool, seen: set<int>, inRange: int, rangeEnd: int,
                                           items: seq<PortItem>)
    requires forall i :: 0 <= i < |items| ==> ValidItem(items[i])
    ensures Positive(FromRange(tracking, seen, inRange, rangeEnd, items).out)
    decreases |items|, 1
  {
    hide FromItem, ValidItem;
    ParsedIsPositive(tracking, seen, 0, rangeEnd, items);
    if 0 < inRange < rangeEnd {
      var walked, behind := Between(inRange + 1, rangeEnd), {rangeEnd + 1};
      UnseenIsPositive(seen, inRange + 1, rangeEnd);
      ParsedIsPositive(tracking, Mark(tracking, Mark(tracking, seen, walked), behind), rangeEnd + 1, rangeEnd, items);
      ParsedIsPositive(tracking, Mark(tracking, seen, walked), 0, rangeEnd, items);
    }
  }

  ghost predicate Printed(source: string, items: seq<PortItem>) {
    items != [] && source == Join(PrintItems(items), ",") && forall i :: 0 <= i < |items| ==> ValidItem(items[i])
  }

  ghost predicate Distinct(s: seq<int>) {
    forall i, j :: 0 <= i < j < |s| ==> s[i] != s[j]
  }

  /** A new parser of a printed list. */
  lemma StartsWithAll(parser: PortParser, items: seq<PortItem>)
    requires parser.inRange == 0 == parser.rangeEnd && parser.overlapSet == {} && parser.sep.sep == ','
    requires parser.sep.n == parser.sep.lastStartingPosition == 0
    requires Printed(parser.sep.tokens, items)
    ensures parser.Ahead(items) && parser.Coming(items) == Parsed(parser.overlapped, items).out
  {
    hide PrintItems, Join, ValidItem, CleanTokens, SepStream.Ahead, FromItem, FromRange;
    PrintedAreClean(items);
    RangeOver(parser.overlapped, {}, 0, 0, items);
    assert [','] == ",";
    StartsAhead(parser.sep, PrintItems(items));
  }

  lemma DistinctAppend(s: seq<int>, v: int)
    ensures Distinct([]) && (Distinct(s) && v !in s ==> Distinct(s + [v]))
  {
  }

  /** The next of the coming ports moves to the output. */
  lemma MovePort(out: seq<int>, coming: seq<int>, all: seq<int>)
    requires out + coming == all && coming != [] && Positive(all)
    ensures coming[0] > 0 && out + [coming[0]] + coming[1..] == all
  {
    assert all[|out|] == coming[0];
  }

  /** Draining the parser: with tracking on, over any string, no port twice. Over a printed list
      the ports are those of its trace, and exactly those of the list, in its order, if and only
      if tracking is off or no port stands in the list twice. */
  method Drain(source: string, overlapped: bool, ghost items: seq<PortItem>) returns (out: seq<int>)
    ensures overlapped ==> Distinct(out)
    ensures Printed(source, items) ==> out == Parsed(overlapped, items).out
    ensures Printed(source, items) ==> (out == Expand(items) <==> overlapped ==> Distinct(Expand(items)))
  {
    hide Expand, Join, ValidItem, Distinct, Positive, PortParser.Ahead, PortParser.Coming, PrintItems, FromItem,
         SepStream.Ahead;
    var parser := new PortParser(source, overlapped);
    ghost var known := Printed(source, items);
    ghost var all := Parsed(overlapped, items).out;
    if known {
      StartsWithAll(parser, items);
      ParsedIsPositive(overlapped, {}, 0, 0, items);
      if overlapped ==> Distinct(Expand(items)) { DistinctIsExpanded(overlapped, {}, 0, items); }
    }
    ghost var left, coming := items, all;
    assert [] + all == all;
    out := [];
    DistinctAppend([], 0);
    var r;
    r, left := parser.GetToken(left);
    while r != 0
      invariant parser.Valid() && fresh(parser) && fresh(parser.sep) && parser.overlapped == overlapped
      invariant overlapped || parser.overlapSet == {}
      invariant overlapped ==> Distinct(out) && r !in out && (forall v :: v in out ==> v != 0 && v in parser.overlapSet)
      invariant overlapped && r != 0 ==> r in parser.overlapSet
      invariant known ==> out + coming == all && if coming == [] then r == 0 else r == coming[0]
      invariant known && coming != [] ==> parser.Ahead(left) && parser.Coming(left) == coming[1..]
      decreases r != 0, parser.Progress().0, parser.Progress().1
    {
      DistinctAppend(out, r);
      if known { MovePort(out, coming, all); }
      out := out + [r];
      coming := if known then coming[1..] else [];
      r, left := parser.GetToken(left);
    }
    if known && coming != [] { MovePort(out, coming, all); }
  }
}
