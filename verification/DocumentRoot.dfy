/** The canonicaliser and the path walk together: which requests are answered from inside the
    document root only, and which are not. */
module DocumentRoot {
  import opened Uri
  import opened Requests
  import opened Exchanges
  import opened Samples
  import FS = FileSystem

  /** Cutting at a slash cuts the list of segments there. */
  lemma {:induction false} SplitAtSlash(s: string, k: nat)
    requires k < |s| && s[k] == '/'
    ensures Split(s) == Split(s[..k]) + Split(s[k + 1..])
    decreases |s|
  {
    hide Split, SlashAt;
    var n := SlashAt(s);
    assert n <= k && '/' !in s[..n];
    if n == k {
      SplitAtIndex(s, k);
    } else {
      var rest := s[n + 1..];
      SplitAtSlash(rest, k - n - 1);
      assert rest[..k - n - 1] == s[..k][n + 1..] && rest[k - n - 1 + 1..] == s[k + 1..];
      SplitAtIndex(s, n);
      SplitAtIndex(s[..k], n);
      assert s[..k][..n] == s[..n];
    }
  }

  lemma SplitAtIndex(s: string, n: nat)
    requires n < |s| && s[n] == '/' && '/' !in s[..n]
    ensures Split(s) == [s[..n]] + Split(s[n + 1..]) && Split(s[..n]) == [s[..n]]
  {
    hide Split;
    assert s == s[..n] + "/" + s[n + 1..];
    SplitAt(s[..n], s[n + 1..]);
  }

  /** Ordinary names, the last of which may be empty. */
  predicate CleanSegments(segs: seq<string>) {
    segs != [] && AllNames(segs[..|segs| - 1]) && (IsName(segs[|segs| - 1]) || segs[|segs| - 1] == "")
  }

  /** Taken one by one from this many directories deep, the segments never step above the top. */
  predicate StaysInside(depth: nat, segs: seq<string>)
    decreases |segs|
  {
    segs != [] ==>
      if segs[0] == ".." then depth > 0 && StaysInside(depth - 1, segs[1..])
      else StaysInside(if IsDots(segs[0]) then depth else depth + 1, segs[1..])
  }

  /** The path is the root, a slash, and segments that never step above the root. */
  predicate Inside(root: string, path: string) {
    root + "/" <= path && StaysInside(0, Split(path[|root| + 1..]))
  }

  predicate AsksInside(asked: string) {
    asked != "" && asked[0] == '/' && StaysInside(0, Split(asked[1..]))
  }

  lemma {:induction false} FrontStaysInside(depth: nat, front: seq<string>, rest: seq<string>)
    requires StaysInside(depth, front + rest)
    ensures StaysInside(depth, front)
    decreases |front|
  {
    if front != [] {
      assert (front + rest)[1..] == front[1..] + rest;
      var next := if front[0] == ".." then depth - 1 else if IsDots(front[0]) then depth else depth + 1;
      FrontStaysInside(next, front[1..], rest);
    }
  }

  lemma {:induction false} CleanStaysInside(depth: nat, segs: seq<string>)
    requires CleanSegments(segs)
    ensures StaysInside(depth, segs)
    decreases |segs|
  {
    if |segs| == 1 {
      assert segs[1..] == [];
    } else {
      var front := segs[..|segs| - 1];
      assert IsName(front[0]) && front[0] == segs[0];
      var inner := segs[1..][..|segs| - 2];
      forall i | 0 <= i < |inner| ensures IsName(inner[i]) {
        assert inner[i] == front[i + 1];
      }
      CleanStaysInside(depth + 1, segs[1..]);
    }
  }

  /** What a walk finds for a path is a regular file: the root with all of the path behind it,
      or with the part in front of one of its slashes. */
  lemma FoundPath(docRoot: string, asked: string, stat: string -> FS.StatResult, path: string)
      returns (rest: seq<string>)
    requires asked != "" && asked[0] == '/' && FS.Lookup(docRoot, asked, stat) == FS.Path(path)
    ensures FS.IsRegular(stat(path)) && FS.Base(docRoot) + "/" <= path
    ensures Split(asked[1..]) == Split(path[|FS.Base(docRoot)| + 1..]) + rest
  {
    hide Split, FS.Walk, IsName, FS.Base;
    var root := FS.Base(docRoot);
    var full := root + asked;
    FS.FoundIsRegular(full, |root| + 1, stat, path);
    var tail := asked[1..];
    assert full == root + "/" + tail;
    if path == full {
      assert path[|root| + 1..] == tail;
      rest := [];
    } else {
      var k := |path| - |root| - 1;
      assert tail[k] == full[|path|] == '/';
      assert path[|root| + 1..] == tail[..k];
      SplitAtSlash(tail, k);
      rest := Split(tail[k + 1..]);
    }
  }

  lemma FrontIsClean(segs: seq<string>, front: seq<string>, rest: seq<string>)
    requires CleanSegments(segs) && segs == front + rest && front != []
    ensures CleanSegments(front)
  {
    hide IsName;
    if rest == [] {
      assert front == segs;
    } else {
      assert front == segs[..|segs| - 1][..|front|];
      assert front[|front| - 1] == segs[..|segs| - 1][|front| - 1];
    }
  }

  /** On a disk where every prefix is a directory, the walk finds the path that it is asked for. */
  lemma EverythingFound(docRoot: string, asked: string)
    requires asked != ""
    ensures MayFind(docRoot, asked, FS.Path(FS.Base(docRoot) + asked))
  {
    hide FS.Walk;
    var full, start := FS.Base(docRoot) + asked, |FS.Base(docRoot)| + 1;
    var above := set k | 0 <= k < |full| :: full[..k];
    var obs := map p | p in above + {full} :: FS.Info(if p == full then FS.Regular else FS.Directory, 0);
    var stat := FS.Observed(obs);
    forall k | 0 <= k < |full| ensures FS.IsDirectory(stat(full[..k])) {
      assert full[..k] in above && full[..k] != full;
    }
    assert full[..|full|] == full;
    FS.WalkPasses(full, start, |full|, stat);
    FS.WalkStops(full, |full|, stat);
    SeenIsFound(docRoot, asked, FS.Path(full), obs);
  }

  lemma LeavesAsAsked(root: string, asked: string)
    requires asked != "" && !AsksInside(asked)
    ensures !Inside(root, root + asked)
  {
    hide Split, StaysInside;
    var full := root + asked;
    assert full[|root| + 1..] == asked[1..] && full[|root|] == asked[0];
  }

  /** Whatever is found for a path stays inside the root, on every disk, if and only if the
      path starts with a slash and none of its ".." steps above the root. */
  lemma FoundIsInsideIff(docRoot: string, asked: string)
    requires asked != ""
    ensures (forall path :: MayFind(docRoot, asked, FS.Path(path)) ==> Inside(FS.Base(docRoot), path))
            <==> AsksInside(asked)
  {
    hide Split, FS.Walk, FS.Lookup, FS.Base, StaysInside;
    var root := FS.Base(docRoot);
    if AsksInside(asked) {
      forall path | MayFind(docRoot, asked, FS.Path(path)) ensures Inside(root, path) {
        var obs :| Saw(docRoot, asked, FS.Path(path), obs);
        var rest := FoundPath(docRoot, asked, FS.Observed(obs), path);
        FrontStaysInside(0, Split(path[|root| + 1..]), rest);
      }
    } else {
      EverythingFound(docRoot, asked);
      LeavesAsAsked(root, asked);
    }
  }

  /** A request asks for such a path exactly when its URI starts with a slash and, if it has a
      body, none of its ".." as it was sent steps above the root. */
  lemma AsksInsideIff(r: Request, cfg: Config)
    requires r.uri != ""
    ensures AsksInside(AskedPath(r, cfg)) <==>
              r.uri[0] == '/' && (VerdictOf(r, cfg).ReadBody? ==> StaysInside(0, Split(r.uri[1..])))
  {
    hide VerdictOf, Split, Normalise, Decode, StaysInside;
    if r.uri[0] == '/' {
      CanonicalIsClean(r.uri);
      CleanStaysInside(0, Split(Canonical(r.uri)[1..]));
    }
  }

  /** In every log: a file that was sent for such a request lies inside the root, and where the
      request has no body it is reached through ordinary names only. */
  lemma ServedInsideRoot(log: seq<Exchange>, cfg: Config, k: nat)
    requires WellFormedLog(log, cfg) && k < |log| && log[k].answer.Opened?
    ensures var r, root, found := ParseBlock(log[k].block).request, FS.Base(cfg.docRoot), log[k].answer.found;
            && r.uri != ""
            && (r.uri[0] == '/' && (VerdictOf(r, cfg).ReadBody? ==> StaysInside(0, Split(r.uri[1..])))
                ==> Inside(root, found))
            && (r.uri[0] == '/' && !VerdictOf(r, cfg).ReadBody?
                ==> root + "/" <= found && CleanSegments(Split(found[|root| + 1..])))
  {
    hide VerdictOf, Split, ParseBlock, WellFramed, HadFatal, KeepAfter, MayFind, AsksInside, Inside,
         CleanSegments, StaysInside, Canonical;
    assert Justified(log[k], k, cfg);
    var r, found := ParseBlock(log[k].block).request, log[k].answer.found;
    UriIsNotEmpty(log[k].block);
    AsksInsideIff(r, cfg);
    FoundHasPath(cfg.docRoot, log[k].path, FS.Path(found));
    FoundIsInsideIff(cfg.docRoot, log[k].path);
    if r.uri[0] == '/' && !VerdictOf(r, cfg).ReadBody? { CanonicalFoundIsClean(cfg.docRoot, r.uri, found); }
  }

  lemma CanonicalFoundIsClean(docRoot: string, uri: string, path: string)
    requires uri != "" && uri[0] == '/' && MayFind(docRoot, Canonical(uri), FS.Path(path))
    ensures FS.Base(docRoot) + "/" <= path && CleanSegments(Split(path[|FS.Base(docRoot)| + 1..]))
  {
    hide Split, FS.Lookup, FS.Base, Canonical, IsName;
    CanonicalIsClean(uri);
    var obs :| Saw(docRoot, Canonical(uri), FS.Path(path), obs);
    var rest := FoundPath(docRoot, Canonical(uri), FS.Observed(obs), path);
    FrontIsClean(Split(Canonical(uri)[1..]), Split(path[|FS.Base(docRoot)| + 1..]), rest);
  }

  /** An empty segment in a raw URI stays inside, although it is no ordinary name. */
  lemma EmptySegmentStaysInside()
    ensures AsksInside("/a//b") && !CleanSegments(Split("/a//b"[1..]))
  {
    hide Split;
    assert "/a//b"[1..] == "a" + "/" + "/b" && "/b" == "" + "/" + "b";
    SplitAt("a", "/b");
    SplitAt("", "b");
    SplitAt("b", "");
    var segs := Split("a//b");
    assert segs == ["a", "", "b"] && segs[..|segs| - 1][1] == "";
    assert segs[1..] == ["", "b"] && segs[1..][1..] == ["b"] && ["b"][1..] == [];
  }

  lemma DotsLeave()
    ensures !AsksInside("/../x")
  {
    hide Split;
    assert "/../x"[1..] == "../x" == ".." + "/" + "x";
    SplitAt("..", "x");
    SplitAt("x", "");
    assert Split("../x")[0] == "..";
  }

  lemma FoundHasPath(docRoot: string, path: string, found: FS.Found)
    requires MayFind(docRoot, path, found)
    ensures path != ""
  {
  }

  /** A request with a body may be answered from outside: its URI is not canonicalised. */
  lemma RawUriLeavesTheRoot(cfg: Config, data: string)
    requires Unsigned(cfg.maxPostBody) >= 1
    ensures var block, found := FieldBlock("POST", "/../x", LENGTH_ONE), FS.Base(cfg.docRoot) + "/../x";
            && IsBlock(block) && Answers(block, "/../x", Opened(found, data), 200, data, cfg)
            && !Inside(FS.Base(cfg.docRoot), found)
  {
    hide IsBlock, ParseBlock, VerdictOf, FieldBlock, MayFind, Split, IsWord, Printable, Inside, AsksInside, FS.Base;
    Words();
    FieldsArePrintable();
    FieldParses("POST", "/../x", LENGTH_ONE);
    LengthVerdict("/../x", cfg);
    EverythingFound(cfg.docRoot, "/../x");
    DotsLeave();
    LeavesAsAsked(FS.Base(cfg.docRoot), "/../x");
  }

  /** So may one whose URI does not start with a slash: it is appended to the root as it is. */
  lemma SlashlessUriLeavesTheRoot(cfg: Config, data: string)
    ensures var block, found := PlainBlock("GET", "-private/f"), FS.Base(cfg.docRoot) + "-private/f";
            && IsBlock(block) && Answers(block, "-private/f", Opened(found, data), 200, data, cfg)
            && !Inside(FS.Base(cfg.docRoot), found)
  {
    hide IsBlock, ParseBlock, VerdictOf, PlainBlock, MayFind, Split, IsWord, Inside, FS.Base;
    Words();
    PlainParses("GET", "-private/f");
    PlainVerdicts("-private/f", cfg);
    EverythingFound(cfg.docRoot, "-private/f");
    assert !AsksInside("-private/f");
    LeavesAsAsked(FS.Base(cfg.docRoot), "-private/f");
  }
}
