/** The dot-segment removal of RFC 3986, section 5.2.4, as a second definition of what
    the canonicaliser does to a decoded path. */
module DotSegments {
  import opened Text
  import opened Uri

  /** Cuts the last segment and the slash in front of it, step 2C of the algorithm. */
  function DropLast(out: string): string {
    var loc := Rfind(out, '/', |out|);
    if loc == -1 then "" else out[..loc]
  }

  /** Steps 2A to 2E on the input and output buffers. */
  function RemoveDotSegments(input: string, out: string): string
    decreases |input|
  {
    if input == "" then out
    else if "../" <= input then RemoveDotSegments(input[3..], out)
    else if "./" <= input then RemoveDotSegments(input[2..], out)
    else if "/./" <= input then RemoveDotSegments(input[2..], out)
    else if input == "/." then RemoveDotSegments("/", out)
    else if "/../" <= input then RemoveDotSegments(input[3..], DropLast(out))
    else if input == "/.." then RemoveDotSegments("/", DropLast(out))
    else if input == "." || input == ".." then out
    else
      var n := 1 + SlashAt(input[1..]);
      RemoveDotSegments(input[n..], out + input[..n])
  }

  /** Every name behind a slash: the output buffer after these names. */
  function Buffer(names: seq<string>): string {
    if names == [] then "" else Buffer(names[..|names| - 1]) + "/" + names[|names| - 1]
  }

  lemma {:induction false} BufferIsDirs(names: seq<string>)
    ensures Buffer(names) + "/" == "/" + Dirs(names)
  {
    if names != [] {
      var front, last := names[..|names| - 1], names[|names| - 1];
      assert names == front + [last];
      BufferIsDirs(front);
      DirsAppend(front, last);
    }
  }

  lemma BufferRenders(names: seq<string>, directory: bool)
    ensures "/" + Render(names, directory) == Buffer(names) + (if directory || names == [] then "/" else "")
  {
    BufferIsDirs(names);
    if names != [] { BufferIsDirs(names[..|names| - 1]); }
  }

  /** Segments as the RFC stacks them: an empty one counts. */
  predicate SlashFree(segs: seq<string>) { forall i :: 0 <= i < |segs| ==> '/' !in segs[i] }

  lemma DropLastName(names: seq<string>)
    requires SlashFree(names)
    ensures DropLast(Buffer(names)) == Buffer(Enter(names, ".."))
  {
    if names != [] {
      var front, last := names[..|names| - 1], names[|names| - 1];
      var out := Buffer(names);
      var n := |Buffer(front)|;
      assert out[n] == '/' && forall i :: 0 <= i < |last| ==> out[n + 1 + i] == last[i];
      var loc := Rfind(out, '/', |out|);
      assert loc >= n;
      assert loc == n by {
        assert forall i :: n < i < |out| ==> out[i] == last[i - n - 1];
      }
      assert out[..n] == Buffer(front);
    }
  }

  /** Step 2E moves one ordinary segment to the output. */
  lemma MoveSegment(seg: string, tail: string, out: string)
    requires '/' !in seg && seg != "." && seg != ".." && (tail == "" || tail[0] == '/')
    ensures RemoveDotSegments("/" + seg + tail, out) == RemoveDotSegments(tail, out + "/" + seg)
  {
    hide RemoveDotSegments, SlashAt;
    var input := "/" + seg + tail;
    var n := 1 + |seg|;
    assert input[1..] == seg + tail;
    SlashBehind(seg, tail);
    assert input[..n] == "/" + seg && input[n..] == tail;
    assert !("/./" <= input) && !("/../" <= input) && input != "/." && input != "/.." by {
      SlashPositions(seg, tail);
    }
    NotRelative(input);
    StepE(input, out);
    assert out + ("/" + seg) == out + "/" + seg;
  }

  lemma StepE(input: string, out: string)
    requires input != "" && !("../" <= input) && !("./" <= input) && input != "." && input != ".."
    requires !("/./" <= input) && !("/../" <= input) && input != "/." && input != "/.."
    ensures var n := 1 + SlashAt(input[1..]);
            RemoveDotSegments(input, out) == RemoveDotSegments(input[n..], out + input[..n])
  {
    hide SlashAt;
  }

  lemma NotRelative(input: string)
    requires input != "" && input[0] == '/'
    ensures !("../" <= input) && !("./" <= input) && input != "." && input != ".."
  {
  }

  lemma SlashBehind(seg: string, tail: string)
    requires '/' !in seg && (tail == "" || tail[0] == '/')
    ensures SlashAt(seg + tail) == |seg|
  {
    var s := seg + tail;
    assert forall i :: 0 <= i < |seg| ==> s[i] == seg[i];
    if tail != "" { assert s[|seg|] == '/'; }
  }

  /** An input that opens with a dot segment has that segment as its first. */
  lemma SlashPositions(seg: string, tail: string)
    requires '/' !in seg && (tail == "" || tail[0] == '/')
    ensures var input := "/" + seg + tail;
            && ("/./" <= input || input == "/." ==> seg == ".")
            && ("/../" <= input || input == "/.." ==> seg == "..")
  {
    var input := "/" + seg + tail;
    assert forall i :: 0 <= i < |seg| ==> input[1 + i] == seg[i];
    assert tail != "" ==> input[1 + |seg|] == '/';
    if "/./" <= input { assert input[1] == '.' && input[2] == '/'; }
    if "/../" <= input { assert input[1] == '.' && input[2] == '.' && input[3] == '/'; }
  }

  /** Steps 2B and 2C on an inner and on a closing dot segment. */
  lemma SkipDots(rest: string, out: string)
    ensures RemoveDotSegments("/./" + rest, out) == RemoveDotSegments("/" + rest, out)
    ensures RemoveDotSegments("/../" + rest, out) == RemoveDotSegments("/" + rest, DropLast(out))
    ensures RemoveDotSegments("/.", out) == RemoveDotSegments("/", out)
    ensures RemoveDotSegments("/..", out) == RemoveDotSegments("/", DropLast(out))
  {
    var one, two := "/./" + rest, "/../" + rest;
    NotRelative(one);
    NotRelative(two);
    assert "/./" <= one && one[2..] == "/" + rest;
    assert "/../" <= two && two[3..] == "/" + rest;
    assert !("/./" <= two) && two != "/." by { assert two[2] == '.'; }
    NotRelative("/.");
    NotRelative("/..");
    assert !("/./" <= "/..") && !("/../" <= "/..");
  }

  lemma BufferPush(names: seq<string>, seg: string)
    ensures Buffer(names + [seg]) == Buffer(names) + "/" + seg
  {
    assert (names + [seg])[..|names|] == names;
  }

  lemma LastSegment(names: seq<string>, seg: string)
    requires SlashFree(names) && '/' !in seg
    ensures RemoveDotSegments("/" + seg, Buffer(names))
         == Buffer(Enter(names, seg)) + (if IsDots(seg) then "/" else "")
  {
    RemoveNothing(Buffer(names) + "/" + seg);
    BufferPush(names, seg);
    hide RemoveDotSegments, DropLast, Buffer;
    if IsDots(seg) {
      DropLastName(names);
      var out := Buffer(Enter(names, seg));
      SkipDots("", Buffer(names));
      MoveSegment("", "", out);
      assert "/" + "" + "" == "/" && out + "/" + "" == out + "/";
      RemoveNothing(out + "/");
      assert RemoveDotSegments("/", out) == out + "/";
      if seg == "" { assert "/" + seg == "/"; }
      else if seg == "." { assert "/" + seg == "/."; }
      else { assert "/" + seg == "/.."; }
    } else {
      MoveSegment(seg, "", Buffer(names));
      assert "/" + seg + "" == "/" + seg;
    }
  }

  lemma RemoveNothing(out: string)
    ensures RemoveDotSegments("", out) == out
  {
  }

  /** An inner segment as the RFC treats it. */
  function Keep(stack: seq<string>, seg: string): seq<string> {
    if seg == "." then stack
    else if seg == ".." then (if stack == [] then [] else stack[..|stack| - 1])
    else stack + [seg]
  }

  /** The segments that the RFC leaves of a path: inner empty ones are kept. */
  function KeepAll(stack: seq<string>, segs: seq<string>): seq<string>
    requires segs != []
    decreases |segs|
  {
    if |segs| == 1 then Enter(stack, segs[0]) else KeepAll(Keep(stack, segs[0]), segs[1..])
  }

  lemma InnerSegment(names: seq<string>, seg: string, rest: string)
    requires SlashFree(names) && '/' !in seg
    ensures RemoveDotSegments("/" + seg + "/" + rest, Buffer(names))
         == RemoveDotSegments("/" + rest, Buffer(Keep(names, seg)))
  {
    hide RemoveDotSegments, DropLast, Buffer;
    if seg == "." || seg == ".." {
      SkipDots(rest, Buffer(names));
      DropLastName(names);
      if seg == "." { assert "/" + seg + "/" + rest == "/./" + rest; }
      else { assert "/" + seg + "/" + rest == "/../" + rest; }
    } else {
      MoveSegment(seg, "/" + rest, Buffer(names));
      assert "/" + seg + "/" + rest == "/" + seg + ("/" + rest);
      BufferPush(names, seg);
    }
  }

  /** The algorithm of the RFC is a fold over the segments, for every path. */
  lemma {:induction false} RemovalIsFold(names: seq<string>, path: string)
    requires SlashFree(names)
    ensures var segs := Split(path);
            RemoveDotSegments("/" + path, Buffer(names))
            == Buffer(KeepAll(names, segs)) + (if IsDots(segs[|segs| - 1]) then "/" else "")
    decreases |path|
  {
    hide RemoveDotSegments, Buffer, Split, Enter, IsDots;
    var n := SlashAt(path);
    var seg := path[..n];
    if n == |path| {
      LastSegment(names, seg);
      SplitAt(seg, "");
      assert path == seg;
    } else {
      var rest := path[n + 1..];
      assert path == seg + "/" + rest;
      SplitAt(seg, rest);
      InnerSegment(names, seg, rest);
      assert "/" + seg + "/" + rest == "/" + path;
      RemovalIsFold(Keep(names, seg), rest);
      var segs := Split(path);
      assert segs[1..] == Split(rest) && segs[|segs| - 1] == Split(rest)[|Split(rest)| - 1];
    }
  }

  // ---------- where the two agree ----------

  /** How many directories deep the RFC is after one more segment. */
  function Deeper(depth: nat, seg: string): nat {
    if seg == "." then depth else if seg == ".." then (if depth == 0 then 0 else depth - 1) else depth + 1
  }

  /** From this depth on the segments lead back to the root, or start there. */
  predicate ReachesRoot(depth: nat, segs: seq<string>)
    decreases |segs|
  {
    depth == 0 || (segs != [] && ReachesRoot(Deeper(depth, segs[0]), segs[1..]))
  }

  /** Behind every inner empty segment the path leads back to the root. */
  predicate EmptiesForgotten(depth: nat, segs: seq<string>)
    decreases |segs|
  {
    |segs| > 1 ==>
      && (segs[0] == "" ==> ReachesRoot(depth + 1, segs[1..]))
      && EmptiesForgotten(Deeper(depth, segs[0]), segs[1..])
  }

  /** One inner segment keeps stacks the same, brings them together at the root, or leaves
      the one of the RFC deeper. */
  lemma StepAgrees(rfc: seq<string>, server: seq<string>, seg: string, rest: seq<string>)
    requires rfc == server || |rfc| > |server|
    ensures var r, s := Keep(rfc, seg), Enter(server, seg);
            && (r == s || |r| > |s|)
            && (seg == "" ==> r != s)
            && (seg != "" ==> (r == s <==> rfc == server || r == []))
  {
  }

  /** The server's stack is never deeper than the one of the RFC. They are the same in the end
      exactly when no empty segment still counts. */
  lemma {:induction false} StacksAgreeIff(rfc: seq<string>, server: seq<string>, segs: seq<string>)
    requires segs != [] && (rfc == server || |rfc| > |server|)
    ensures var r, s := KeepAll(rfc, segs), Resolve(server, segs);
            && (r == s || |r| > |s|)
            && (r == s <==> (rfc == server || ReachesRoot(|rfc|, segs)) && EmptiesForgotten(|rfc|, segs))
    decreases |segs|
  {
    var seg, rest := segs[0], segs[1..];
    if |segs| == 1 {
      assert Resolve(server, segs) == Resolve(Enter(server, seg), rest) == Enter(server, seg);
      assert ReachesRoot(|rfc|, segs) <==> |rfc| == 0 || Deeper(|rfc|, seg) == 0;
    } else {
      StacksAgreeIff(Keep(rfc, seg), Enter(server, seg), rest);
      assert |Keep(rfc, seg)| == Deeper(|rfc|, seg);
      assert ReachesRoot(|rfc|, segs) <==> |rfc| == 0 || ReachesRoot(Deeper(|rfc|, seg), rest);
      StepAgrees(rfc, server, seg, rest);
    }
  }

  function Slashes(s: string): nat {
    if s == "" then 0 else (if s[|s| - 1] == '/' then 1 else 0) + Slashes(s[..|s| - 1])
  }

  lemma {:induction false} SlashesAppend(s: string, t: string)
    requires '/' !in t
    ensures Slashes(s + t) == Slashes(s)
    decreases |t|
  {
    if t == "" {
      assert s + t == s;
    } else {
      assert (s + t)[..|s + t| - 1] == s + t[..|t| - 1];
      SlashesAppend(s, t[..|t| - 1]);
    }
  }

  lemma {:induction false} BufferSlashes(names: seq<string>)
    requires SlashFree(names)
    ensures Slashes(Buffer(names)) == |names|
  {
    if names != [] {
      var front, last := names[..|names| - 1], names[|names| - 1];
      BufferSlashes(front);
      SlashesAppend(Buffer(front) + "/", last);
      assert (Buffer(front) + "/")[..|Buffer(front)|] == Buffer(front);
    }
  }

  lemma {:induction false} KeepAllIsSlashFree(stack: seq<string>, segs: seq<string>)
    requires segs != [] && SlashFree(stack) && SlashFree(segs)
    ensures SlashFree(KeepAll(stack, segs))
    decreases |segs|
  {
    if |segs| > 1 { KeepAllIsSlashFree(Keep(stack, segs[0]), segs[1..]); }
  }

  /** The canonicaliser computes what RFC 3986 asks for if and only if behind every inner
      empty segment of the decoded path the path leads back to the root. */
  lemma CanonicalIsRemoveDotSegmentsIff(uri: string)
    requires uri != "" && uri[0] == '/'
    ensures var path := Decode(uri[1..]).0;
            Canonical(uri) == RemoveDotSegments("/" + path, "") <==> EmptiesForgotten(0, Split(path))
  {
    hide RemoveDotSegments, Decode, Split, KeepAll, Resolve, Buffer, Slashes, EmptiesForgotten, Render, IsDots;
    var path := Decode(uri[1..]).0;
    var segs := Split(path);
    var rfc, server := KeepAll([], segs), Resolve([], segs);
    var directory := IsDots(segs[|segs| - 1]);
    EmptyBuffer();
    RemovalIsFold([], path);
    StacksAgreeIff([], [], segs);
    SplitHasNoSlash(path);
    ResolveKeepsNames([], segs);
    KeepAllIsSlashFree([], segs);
    BufferRenders(server, directory);
    BufferSlashes(server);
    BufferSlashes(rfc);
    EndsOpen([], segs);
    CancelSlash(Buffer(rfc), Buffer(server), if directory then "/" else "");
  }

  lemma CancelSlash(a: string, b: string, t: string)
    ensures a + t == b + t <==> a == b
  {
    if a + t == b + t {
      assert (a + t)[..|a|] == a && (b + t)[..|b|] == b;
    }
  }

  lemma EmptyBuffer()
    ensures Buffer([]) == "" && SlashFree([]) && AllNames([])
  {
  }

  /** A path that does not end in a directory leaves a name. */
  lemma {:induction false} EndsOpen(stack: seq<string>, segs: seq<string>)
    requires segs != []
    ensures Resolve(stack, segs) == [] ==> IsDots(segs[|segs| - 1])
    decreases |segs|
  {
    assert |segs| == 1 ==> Resolve(stack, segs) == Resolve(Enter(stack, segs[0]), segs[1..]) == Enter(stack, segs[0]);
    if |segs| > 1 { EndsOpen(Enter(stack, segs[0]), segs[1..]); }
  }

  /** The RFC keeps an empty segment; the server collapses it. */
  lemma EmptySegmentsDiffer()
    ensures Canonical("//b") == "/b"
    ensures RemoveDotSegments("//b", "") == "//b"
  {
    ServerCollapses();
    RfcKeeps();
  }

  lemma ServerCollapses()
    ensures Canonical("//b") == "/b"
  {
    assert "//b"[1..] == "/b" == "" + "/" + "b";
    DecodePlain("/b");
    NormaliseStep([], "", "b");
    NormaliseLast([], "b");
    assert Dirs([]) + "b" == "b";
  }

  lemma RfcKeeps()
    ensures RemoveDotSegments("//b", "") == "//b"
  {
    hide RemoveDotSegments;
    MoveSegment("", "/b", "");
    MoveSegment("b", "", "/");
    RemoveNothing("//b");
    assert "/" + "" + "/b" == "//b" && "" + "/" + "" == "/";
    assert "/" + "b" + "" == "/b" && "/" + "/" + "b" == "//b";
  }
}
