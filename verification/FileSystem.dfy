/** The stat caches, and the walk along a path that finds the file to serve. */
module FileSystem {

  datatype Kind = Regular | Directory | Other
  datatype Errno = EACCES | ENOENT | ELOOP | ENAMETOOLONG | ENOTDIR | OTHER

  /** What stat or lstat reports. */
  datatype StatResult = Info(kind: Kind, size: nat) | Failure(errno: Errno)

  /** The disk: what the call reports for a path at a time, following links or not. */
  type World = (string, bool, int) -> StatResult

  datatype CacheItem = CacheItem(created: int, result: StatResult)

  /** Every item holds what the disk reported when it was made, not later than latest. */
  ghost predicate Faithful(world: World, cache: map<string, CacheItem>, followlink: bool, latest: int) {
    forall p :: p in cache ==>
      cache[p].created <= latest && cache[p].result == world(p, followlink, cache[p].created)
  }

  /** r is what the disk reported at time t, recently enough to be served at now. */
  ghost predicate Fresh(world: World, path: string, followlink: bool, now: int, duration: int, r: StatResult, t: int) {
    && t <= now && r == world(path, followlink, t)
    && (r.Failure? || duration < 1 ==> t == now)
    && (t == now || now < t + duration)
  }

  // ---------- the walk as a function of what stat says ----------

  datatype Found = Path(path: string) | NotFound(errno: Errno)

  /** Looks at the prefixes of full that end in front of a slash at or behind position i,
      and at last at full itself. */
  function Walk(full: string, i: nat, stat: string -> StatResult): Found
    requires i <= |full|
    decreases |full| - i
  {
    if i == |full| then
      match stat(full)
      case Failure(e) => NotFound(e)
      case Info(kind, _) => if kind == Regular then Path(full) else NotFound(EACCES)
    else if full[i] == '/' then
      match stat(full[..i])
      case Failure(e) => NotFound(e)
      case Info(kind, _) =>
        if kind == Directory then Walk(full, i + 1, stat)
        else if kind == Regular then Path(full[..i])
        else NotFound(EACCES)
    else Walk(full, i + 1, stat)
  }

  /** The directory without its closing slash, as the walk joins it to a path. */
  function Base(basedir: string): string {
    if basedir != "" && basedir[|basedir| - 1] == '/' then basedir[..|basedir| - 1] else basedir
  }

  /** The walk along a path from basedir on, which skips the first character of the path. */
  function Lookup(basedir: string, path: string, stat: string -> StatResult): Found
    requires path != ""
  {
    Walk(Base(basedir) + path, |Base(basedir)| + 1, stat)
  }

  /** What was observed during one walk, as a stat function. */
  function Observed(obs: map<string, StatResult>): string -> StatResult {
    p => if p in obs then obs[p] else Failure(ENOENT)
  }

  /** Position k is where the walk looks at a prefix. */
  predicate IsStop(full: string, from: nat, k: int) {
    from <= k < |full| && full[k] == '/'
  }

  predicate IsDirectory(r: StatResult) { r.Info? && r.kind == Directory }

  /** The answer for the path that decides the walk. */
  function Judged(path: string, r: StatResult): Found {
    if r.Failure? then NotFound(r.errno) else if r.kind == Regular then Path(path) else NotFound(EACCES)
  }

  predicate IsRegular(r: StatResult) { r.Info? && r.kind == Regular }

  /** The first prefix that is not a directory, or the full path: what the walk decides by. */
  ghost predicate DecidedAt(full: string, from: nat, stat: string -> StatResult, k: int) {
    && (k == |full| || (IsStop(full, from, k) && !IsDirectory(stat(full[..k]))))
    && from <= k && forall j :: IsStop(full, from, j) && j < k ==> IsDirectory(stat(full[..j]))
  }

  /** The walk succeeds exactly when the first prefix that is not a directory, or else the
      full path, is a regular file, and returns it; otherwise it reports that stat's error,
      or EACCES for an object of another kind. */
  lemma {:induction false} WalkDecides(full: string, from: nat, stat: string -> StatResult) returns (k: nat)
    requires from <= |full|
    ensures DecidedAt(full, from, stat, k) && k <= |full|
    ensures Walk(full, from, stat) ==
              if IsRegular(stat(full[..k])) then Path(full[..k])
              else if stat(full[..k]).Failure? then NotFound(stat(full[..k]).errno)
              else NotFound(EACCES)
    decreases |full| - from
  {
    if from == |full| {
      k := from;
      assert full[..k] == full;
    } else if full[from] == '/' && !IsDirectory(stat(full[..from])) {
      k := from;
    } else {
      k := WalkDecides(full, from + 1, stat);
      forall j | IsStop(full, from, j) && j < k ensures IsDirectory(stat(full[..j])) {
        if j > from { assert IsStop(full, from + 1, j); }
      }
    }
  }

  /** There is only one place where the walk can be decided. */
  lemma DecidedOnce(full: string, from: nat, stat: string -> StatResult, j: int, k: int)
    requires from <= |full| && DecidedAt(full, from, stat, j) && DecidedAt(full, from, stat, k)
    ensures j == k
  {
    assert IsStop(full, from, j) || j == |full|;
    assert IsStop(full, from, k) || k == |full|;
  }

  /** A path that is returned is a regular file, is a prefix, and everything above it is a directory. */
  lemma FoundIsRegular(full: string, from: nat, stat: string -> StatResult, path: string)
    requires from <= |full| && Walk(full, from, stat) == Path(path)
    ensures path <= full && IsRegular(stat(path))
    ensures path == full || IsStop(full, from, |path|)
    ensures forall j :: IsStop(full, from, j) && j < |path| ==> IsDirectory(stat(full[..j]))
  {
    var k := WalkDecides(full, from, stat);
    assert path == full[..k];
    if k == |full| { assert full[..k] == full; }
  }

  /** Where every stop so far is a directory, the walk goes on behind it. */
  lemma {:induction false} WalkPasses(full: string, from: nat, i: nat, stat: string -> StatResult)
    requires from <= i <= |full|
    requires forall j :: IsStop(full, from, j) && j < i ==> IsDirectory(stat(full[..j]))
    ensures Walk(full, from, stat) == Walk(full, i, stat)
    decreases i - from
  {
    if from < i {
      assert full[from] == '/' ==> IsStop(full, from, from);
      assert forall j :: IsStop(full, from + 1, j) ==> IsStop(full, from, j);
      WalkPasses(full, from + 1, i, stat);
    }
  }

  /** Behind nothing but directories, this answer decides the walk. */
  lemma WalkEnds(full: string, from: nat, i: nat, obs: map<string, StatResult>, r: StatResult)
    requires from <= i <= |full| && (i == |full| || (full[i] == '/' && !IsDirectory(r)))
    requires Passed(full, from, i, obs) && full[..i] in obs && obs[full[..i]] == r
    ensures Walk(full, from, Observed(obs)) == Judged(full[..i], r)
    ensures forall k :: Asked(full, from, Observed(obs), k) ==> full[..k] in obs
    ensures Judged(full[..i], r).Path? ==> Judged(full[..i], r).path == full[..i]
  {
    hide Walk;
    WalkPasses(full, from, i, Observed(obs));
    WalkStops(full, i, Observed(obs));
    assert i < |full| ==> IsStop(full, from, i) && !IsDirectory(Observed(obs)(full[..i]));
    forall k | Asked(full, from, Observed(obs), k) ensures full[..k] in obs {
      assert k == i || IsStop(full, from, k);
    }
  }

  /** Every stop in front of position i was seen to be a directory. */
  ghost predicate Passed(full: string, from: nat, i: nat, obs: map<string, StatResult>) {
    forall j :: IsStop(full, from, j) && j < i ==> full[..j] in obs && IsDirectory(obs[full[..j]])
  }

  lemma PassedNone(full: string, from: nat)
    ensures Passed(full, from, from, map[])
  {
  }

  lemma PassedOver(full: string, from: nat, i: nat, obs: map<string, StatResult>)
    requires i < |full| && full[i] != '/' && Passed(full, from, i, obs)
    ensures Passed(full, from, i + 1, obs)
  {
  }

  lemma PassedStep(full: string, from: nat, i: nat, obs: map<string, StatResult>, r: StatResult)
    requires i <= |full| && Passed(full, from, i, obs)
    ensures Passed(full, from, i, obs[full[..i] := r])
    ensures i < |full| && IsDirectory(r) ==> Passed(full, from, i + 1, obs[full[..i] := r])
  {
    forall j | IsStop(full, from, j) && j < i ensures full[..j] != full[..i] {
      assert |full[..j]| == j && |full[..i]| == i;
    }
  }

  /** These observations are all fresh enough. */
  ghost predicate AllFresh(obs: map<string, StatResult>, world: World, followlink: bool, now: int, duration: int) {
    forall p :: p in obs ==> exists t :: Fresh(world, p, followlink, now, duration, obs[p], t)
  }

  lemma FreshNone(world: World, followlink: bool, now: int, duration: int)
    ensures AllFresh(map[], world, followlink, now, duration)
  {
  }

  lemma FreshStep(obs: map<string, StatResult>, path: string, r: StatResult, world: World, followlink: bool, now: int,
                  duration: int, t: int)
    requires AllFresh(obs, world, followlink, now, duration) && Fresh(world, path, followlink, now, duration, r, t)
    ensures AllFresh(obs[path := r], world, followlink, now, duration)
  {
    hide Fresh;
  }

  /** A slash at the end of the document root makes no difference. */
  lemma SlashBehindBase(dir: string, path: string, stat: string -> StatResult)
    requires path != "" && (dir == "" || dir[|dir| - 1] != '/')
    ensures Base(dir) == Base(dir + "/") == dir && Lookup(dir + "/", path, stat) == Lookup(dir, path, stat)
    ensures Lookup(dir, path, stat) == Walk(dir + path, |dir| + 1, stat)
  {
    hide Walk;
    assert (dir + "/")[..|dir|] == dir;
  }

  lemma BaseIs(basedir: string)
    requires basedir != ""
    ensures Base(basedir) == if basedir[|basedir| - 1] == '/' then basedir[..|basedir| - 1] else basedir
  {
  }

  /** The walk looks at the prefix of this length: it is a stop, or the full path, and
      every stop in front of it is a directory. */
  ghost predicate Asked(full: string, from: nat, stat: string -> StatResult, k: int) {
    && 0 <= k <= |full| && (k == |full| || IsStop(full, from, k))
    && forall j :: IsStop(full, from, j) && j < k ==> IsDirectory(stat(full[..j]))
  }

  /** The walk only depends on what stat says about the prefixes it asks for. */
  lemma WalkAgrees(full: string, from: nat, stat: string -> StatResult, other: string -> StatResult)
    requires from <= |full|
    requires forall k :: Asked(full, from, stat, k) ==> stat(full[..k]) == other(full[..k])
    ensures Walk(full, from, stat) == Walk(full, from, other)
  {
    var k := WalkDecides(full, from, stat);
    forall j | IsStop(full, from, j) && j < k ensures IsDirectory(other(full[..j])) {
      assert Asked(full, from, stat, j);
    }
    WalkPasses(full, from, k, stat);
    WalkPasses(full, from, k, other);
    assert Asked(full, from, stat, k);
    WalkStops(full, k, stat);
    WalkStops(full, k, other);
  }

  /** At a stop that is not a directory, and at the end, the walk is decided. */
  lemma WalkStops(full: string, i: nat, stat: string -> StatResult)
    requires i <= |full| && (i == |full| || (full[i] == '/' && !IsDirectory(stat(full[..i]))))
    ensures Walk(full, i, stat) == Judged(full[..i], stat(full[..i]))
  {
    if i == |full| { assert full[..i] == full; }
  }

  // ---------- the class ----------

  class FileSystem {
    const world: World
    const duration: int
    const followSymLinks: bool
    var statCache: map<string, CacheItem>
    var linkStatCache: map<string, CacheItem>
    /** The latest time that Stat has been called at. */
    ghost var latest: int

    ghost predicate Valid()
      reads this
    {
      Faithful(world, statCache, true, latest) && Faithful(world, linkStatCache, false, latest)
    }

    constructor (world: World, duration: int, followSymLinks: bool, ghost now: int)
      ensures Valid() && this.world == world && this.duration == duration
      ensures this.followSymLinks == followSymLinks && latest == now
    {
      this.world, this.duration, this.followSymLinks := world, duration, followSymLinks;
      statCache, linkStatCache := map[], map[];
      latest := now;
    }

    method Stat(path: string, followlink: bool, fromcache: bool, now: int) returns (r: StatResult, ghost when: int)
      requires Valid()
      modifies this
      ensures Valid() && latest == (if now > old(latest) then now else old(latest))
      ensures r == world(path, followlink, when)
      ensures duration < 1 || !fromcache ==> when == now
      ensures old(latest) <= now ==> Fresh(world, path, followlink, now, duration, r, when)
      ensures followlink ==> linkStatCache == old(linkStatCache)
      ensures !followlink ==> statCache == old(statCache)
    {
      latest := if now > latest then now else latest;
      if duration < 1 {
        return world(path, followlink, now), now;
      }
      var cache := if followlink then statCache else linkStatCache;
      if path in cache {
        var v := cache[path];
        var expire := v.created + duration;
        if v.result.Failure? { expire := v.created + 1; }
        if fromcache && expire > now {
          return v.result, v.created;
        }
        cache := cache - {path};
      }
      var result := CacheItem(now, world(path, followlink, now));
      cache := cache[path := result];
      if followlink { statCache := cache; } else { linkStatCache := cache; }
      return result.result, now;
    }

    /** The path to serve. The cache may answer for each prefix, so the result is the walk
        over observations that are each fresh. */
    method CheckFilePath(basedir: string, path: string, now: int)
      returns (found: Found, fst: StatResult, ghost obs: map<string, StatResult>, ghost full: string, ghost start: nat)
      requires Valid() && latest <= now && basedir != "" && path != ""
      modifies this
      ensures Valid() && latest == now
      ensures full == Base(basedir) + path && start == |Base(basedir)| + 1
      ensures found == Walk(full, start, Observed(obs)) == Lookup(basedir, path, Observed(obs))
      ensures AllFresh(obs, world, followSymLinks, now, duration)
      ensures forall k :: Asked(full, start, Observed(obs), k) ==> full[..k] in obs
      ensures found.Path? ==> found.path in obs && fst == obs[found.path]
    {
      hide Walk, Fresh, Faithful, Passed, AllFresh, Judged, Base, Observed;
      var fullpath := basedir;
      if fullpath[|fullpath| - 1] == '/' { fullpath := fullpath[..|fullpath| - 1]; }
      var i := |fullpath| + 1;
      fullpath := fullpath + path;
      full, start, obs := fullpath, i, map[];
      BaseIs(basedir);
      PassedNone(full, start);
      FreshNone(world, followSymLinks, now, duration);
      ghost var when: int;
      while i < |fullpath|
        invariant start <= i <= |fullpath| && Valid() && latest <= now
        invariant AllFresh(obs, world, followSymLinks, now, duration) && Passed(full, start, i, obs)
      {
        if fullpath[i] == '/' {
          fst, when := Stat(fullpath[..i], followSymLinks, true, now);
          FreshStep(obs, fullpath[..i], fst, world, followSymLinks, now, duration, when);
          PassedStep(full, start, i, obs, fst);
          obs := obs[fullpath[..i] := fst];
          if !IsDirectory(fst) {
            WalkEnds(full, start, i, obs, fst);
            found := Judged(fullpath[..i], fst);
            return;
          }
        } else {
          PassedOver(full, start, i, obs);
        }
        i := i + 1;
      }
      fst, when := Stat(fullpath, followSymLinks, true, now);
      assert full[..i] == full;
      FreshStep(obs, fullpath, fst, world, followSymLinks, now, duration, when);
      PassedStep(full, start, i, obs, fst);
      obs := obs[fullpath := fst];
      WalkEnds(full, start, i, obs, fst);
      found := Judged(fullpath, fst);
    }
  }

  /** On a disk that does not change, the walk over fresh observations is the walk over the disk. */
  lemma UnchangingDisk(fs: FileSystem, full: string, start: nat, obs: map<string, StatResult>, now: int)
    requires start <= |full|
    requires forall p, t :: fs.world(p, fs.followSymLinks, t) == fs.world(p, fs.followSymLinks, now)
    requires forall p :: p in obs ==> exists t :: Fresh(fs.world, p, fs.followSymLinks, now, fs.duration, obs[p], t)
    requires forall k :: Asked(full, start, Observed(obs), k) ==> full[..k] in obs
    ensures Walk(full, start, Observed(obs)) == Walk(full, start, (p: string) => fs.world(p, fs.followSymLinks, now))
  {
    var disk := (p: string) => fs.world(p, fs.followSymLinks, now);
    forall p | p in obs ensures obs[p] == disk(p) {
      var t :| Fresh(fs.world, p, fs.followSymLinks, now, fs.duration, obs[p], t);
    }
    WalkAgrees(full, start, Observed(obs), disk);
  }
}
