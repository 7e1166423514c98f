/** The timer queue: a vector kept sorted by trigger, ticked from its front. */
module Timers {

  class Timer {
    var trigger: int
    var secs: int
    var repeat: bool

    constructor (secsFromNow: int, now: int, repeating: bool)
      ensures trigger == now + secsFromNow && secs == secsFromNow && repeat == repeating
    {
      trigger, secs, repeat := now + secsFromNow, secsFromNow, repeating;
    }

    method SetTimer(t: int)
      modifies this`trigger
      ensures trigger == t
    {
      trigger := t;
    }

    method CancelRepeat()
      modifies this`repeat
      ensures !repeat
    {
      repeat := false;
    }

    /** The handler of a derived class: it leaves the manager alone, and may cancel its
        own repetition, as the documentation of CancelRepeat suggests. */
    method Tick(time: int)
      modifies this`repeat
      ensures repeat ==> old(repeat)
    {
      var cancel: bool := *;
      if cancel { CancelRepeat(); }
    }
  }

  ghost predicate SortedByTrigger(ts: seq<Timer>)
    reads ts
  {
    forall i, j :: 0 <= i < j < |ts| ==> ts[i].trigger <= ts[j].trigger
  }

  ghost predicate NoDuplicates(ts: seq<Timer>) {
    forall i, j :: 0 <= i < j < |ts| ==> ts[i] != ts[j]
  }

  predicate Earliest(ts: seq<Timer>, k: int)
    reads ts
  {
    0 <= k < |ts| && forall j :: 0 <= j < |ts| ==> ts[k].trigger <= ts[j].trigger
  }

  lemma {:induction false} EarliestExists(ts: seq<Timer>)
    requires ts != []
    ensures exists k :: 0 <= k < |ts| && Earliest(ts, k)
  {
    if |ts| == 1 {
      assert Earliest(ts, 0);
    } else {
      var rest := ts[1..];
      EarliestExists(rest);
      var k :| 0 <= k < |rest| && Earliest(rest, k);
      var best := if ts[0].trigger <= rest[k].trigger then 0 else k + 1;
      forall j | 0 <= j < |ts| ensures ts[best].trigger <= ts[j].trigger {
        if j > 0 { assert rest[j - 1] == ts[j]; }
      }
      assert Earliest(ts, best);
    }
  }

  /** Taking the earliest of the rest keeps the front sorted and below the rest. */
  lemma SelectEarliest(sorted: seq<Timer>, rest: seq<Timer>, k: nat)
    requires SortedByTrigger(sorted) && Below(sorted, rest) && k < |rest| && Earliest(rest, k)
    ensures var left := rest[..k] + rest[k + 1..];
            && SortedByTrigger(sorted + [rest[k]]) && Below(sorted + [rest[k]], left)
            && multiset(sorted + [rest[k]]) + multiset(left) == multiset(sorted) + multiset(rest)
  {
    var left := rest[..k] + rest[k + 1..];
    assert rest == rest[..k] + [rest[k]] + rest[k + 1..];
    forall i, j | 0 <= i < |sorted| + 1 && 0 <= j < |left|
      ensures (sorted + [rest[k]])[i].trigger <= left[j].trigger
    {
      assert left[j] == if j < k then rest[j] else rest[j + 1];
    }
  }

  ghost predicate Below(a: seq<Timer>, b: seq<Timer>)
    reads a, b
  {
    forall i, j :: 0 <= i < |a| && 0 <= j < |b| ==> a[i].trigger <= b[j].trigger
  }

  lemma SameElements(s: seq<Timer>, ts: seq<Timer>)
    requires multiset(s) == multiset(ts) && NoDuplicates(ts)
    ensures NoDuplicates(s) && forall t :: t in s <==> t in ts
  {
    forall t ensures t in s <==> t in ts {
      assert t in s <==> t in multiset(s);
      assert t in ts <==> t in multiset(ts);
    }
    forall i, j | 0 <= i < j < |s| ensures s[i] != s[j] {
      if s[i] == s[j] {
        Twice(s, i, j);
        Once(ts, s[i]);
      }
    }
  }

  lemma Twice(s: seq<Timer>, i: nat, j: nat)
    requires i < j < |s| && s[i] == s[j]
    ensures multiset(s)[s[i]] >= 2
  {
    assert s == s[..i] + [s[i]] + s[i + 1..j] + [s[j]] + s[j + 1..];
  }

  lemma {:induction false} Once(s: seq<Timer>, t: Timer)
    requires NoDuplicates(s)
    ensures multiset(s)[t] <= 1
    decreases |s|
  {
    if s != [] {
      assert s == [s[0]] + s[1..];
      Once(s[1..], t);
      if s[0] == t { assert t !in s[1..]; }
    }
  }

  lemma NothingSorted(ts: seq<Timer>)
    ensures SortedByTrigger([]) && Below([], ts)
  {
  }

  class TimerManager {
    var timers: seq<Timer>
    /** The timers whose handlers have run, in order. */
    ghost var fired: seq<Timer>

    ghost predicate Valid()
      reads this, timers
    {
      SortedByTrigger(timers) && NoDuplicates(timers)
    }

    constructor ()
      ensures Valid() && timers == [] && fired == []
    {
      timers, fired := [], [];
    }

    /** std::sort is not stable, so any sorted arrangement may come out: each place takes
        any of the earliest timers that are left. */
    method Sort()
      modifies this`timers
      ensures SortedByTrigger(timers) && multiset(timers) == multiset(old(timers))
    {
      hide SortedByTrigger, Below, Earliest;
      NothingSorted(timers);
      var sorted, rest: seq<Timer> := [], timers;
      while rest != []
        invariant timers == old(timers) && multiset(sorted) + multiset(rest) == multiset(timers)
        invariant SortedByTrigger(sorted)
        invariant Below(sorted, rest)
        decreases |rest|
      {
        EarliestExists(rest);
        var k :| 0 <= k < |rest| && Earliest(rest, k);
        SelectEarliest(sorted, rest, k);
        sorted := sorted + [rest[k]];
        rest := rest[..k] + rest[k + 1..];
      }
      assert rest == [] && multiset(sorted) == multiset(sorted) + multiset(rest) == multiset(timers);
      timers := sorted;
    }

    method AddTimer(t: Timer)
      requires NoDuplicates(timers) && t !in timers
      modifies this`timers
      ensures Valid() && forall u :: u in timers <==> u in old(timers) || u == t
    {
      timers := timers + [t];
      ghost var pushed := timers;
      Sort();
      SameElements(timers, pushed);
    }

    method DelTimer(t: Timer)
      requires Valid()
      modifies this`timers
      ensures Valid() && forall u :: u in timers <==> u in old(timers) && u != t
    {
      var i := 0;
      while i < |timers| && timers[i] != t
        invariant 0 <= i <= |timers| && t !in timers[..i]
      {
        i := i + 1;
      }
      if i < |timers| {
        timers := timers[..i] + timers[i + 1..];
      }
    }

    /** Lines 27-40 of TickTimers: takes the first timer and runs its handler. */
    method TickFirst(time: int) returns (t: Timer)
      requires Valid() && timers != []
      modifies this, timers[0]
      ensures Valid() && t == old(timers)[0] && fired == old(fired) + [t]
      ensures forall u :: u in timers <==> (u in old(timers) && u != t) || (u == t && t.repeat)
      ensures t.secs == old(t.secs) && (t.repeat ==> old(t.repeat) && t.trigger == time + t.secs)
    {
      t := timers[0];
      timers := timers[1..];
      t.Tick(time);
      fired := fired + [t];
      if t.repeat {
        t.SetTimer(time + t.secs);
        AddTimer(t);
      }
    }

    /** Runs the handler of every timer that is due, re-arms the repeating ones and drops
        the others. */
    method TickTimers(time: int) returns (ghost due: seq<Timer>)
      requires Valid()
      requires forall t :: t in timers && t.repeat && t.trigger < time ==> t.secs >= 0
      modifies this, timers
      ensures Valid()
      // every timer that was due has fired once, in the order of the triggers
      ensures fired == old(fired) + due && NoDuplicates(due)
      ensures forall t :: t in due <==> t in old(timers) && old(t.trigger) < time
      ensures forall i, j :: 0 <= i < j < |due| && due[i] in old(timers) && due[j] in old(timers) ==>
                old(due[i].trigger) <= old(due[j].trigger)
      // the queue keeps the others, and those that repeat at their new time
      ensures forall t :: t in timers <==>
                (t in old(timers) && old(t.trigger) >= time) || (t in due && t.repeat)
      ensures forall t :: t in old(timers) && t !in due ==>
                t.trigger == old(t.trigger) && t.repeat == old(t.repeat)
      ensures forall t :: t in due && t.repeat ==> t.trigger == time + t.secs && old(t.repeat)
      ensures forall t :: t in old(timers) ==> t.secs == old(t.secs)
    {
      hide SortedByTrigger;
      due := [];
      ghost var before := timers;
      ghost var waiting := set t | t in before;
      while timers != [] && time > timers[0].trigger
        invariant Valid() && fired == old(fired) + due && NoDuplicates(due)
        invariant forall t :: t in timers ==> t in before
        invariant forall t :: t in before <==> t in waiting || t in due
        invariant forall t :: t in due ==> t !in waiting && old(t.trigger) < time
        invariant forall t :: t in waiting ==>
                    t in timers && t.trigger == old(t.trigger) && t.repeat == old(t.repeat)
        invariant forall t :: t in due ==> (t in timers <==> t.repeat) && (t.repeat ==> old(t.repeat))
        invariant forall t :: t in due && t.repeat ==> t.trigger == time + t.secs
        invariant forall t :: t in before ==> t.secs == old(t.secs)
        invariant forall i, j :: 0 <= i < j < |due| && due[i] in before && due[j] in before ==>
                    old(due[i].trigger) <= old(due[j].trigger)
        invariant forall t, u :: t in due && u in waiting ==> old(t.trigger) <= old(u.trigger)
        decreases waiting
      {
        var first := timers[0];
        assert first in waiting;
        FirstIsEarliest(timers);
        var t := TickFirst(time);
        due := due + [t];
        waiting := waiting - {t};
      }
      if timers != [] { FirstIsEarliest(timers); }
    }
  }

  lemma FirstIsEarliest(ts: seq<Timer>)
    requires SortedByTrigger(ts) && ts != []
    ensures forall t :: t in ts ==> ts[0].trigger <= t.trigger
  {
  }
}
