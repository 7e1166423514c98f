/** From accept to the cull list: which connections are alive, and which are being quit. */
module Lifecycle {

  class Client {
    var quitting: bool
    var finished: bool
    var age: int
    var lastSocketEvent: int

    constructor (now: int)
      ensures !quitting && !finished && age == now && lastSocketEvent == now
    {
      quitting, finished, age, lastSocketEvent := false, false, now, now;
    }
  }

  /** What one accept call delivers: a descriptor, whether getsockname works for it, and
      whether the socket engine takes it. */
  datatype Accepted = Accepted(fd: int, named: bool, added: bool)

  /** What happens between two turns: a listening socket is ready, or a connection is deleted. */
  datatype ServerEvent = Incoming(queue: seq<Accepted>) | Quit(index: nat)

  /** The descriptors that become clients, as the socket engine's answers, in order. */
  function Admitted(queue: seq<Accepted>): seq<bool> {
    if queue == [] then []
    else
      var last := queue[|queue| - 1];
      Admitted(queue[..|queue| - 1]) + (if last.named then [last.added] else [])
  }

  /** A descriptor without a name becomes no client, any other one, as the socket engine says. */
  lemma {:induction false} AdmittedIs(front: seq<Accepted>, a: Accepted, rest: seq<Accepted>)
    ensures Admitted(front + [a] + rest) == Admitted(front) + (if a.named then [a.added] else []) + Admitted(rest)
    decreases |rest|
  {
    var queue := front + [a];
    if rest == [] {
      assert queue + [] == queue && queue[..|front|] == front;
    } else {
      var inner := rest[..|rest| - 1];
      AdmittedIs(front, a, inner);
      assert (queue + rest)[..|queue + rest| - 1] == queue + inner;
    }
  }

  lemma AdmittedNone()
    ensures Admitted([]) == []
  {
  }

  lemma AdmittedStep(queue: seq<Accepted>, n: nat)
    requires n < |queue|
    ensures Admitted(queue[..n + 1]) == Admitted(queue[..n]) + (if queue[n].named then [queue[n].added] else [])
  {
    assert queue[..n + 1][..n] == queue[..n];
  }

  /** What the server accepts: how many clients, which descriptors, and whether one accept call
      follows another. */
  datatype Limits = Limits(softLimit: nat, maxClients: nat, maxDescriptors: nat, canMultiaccept: bool)

  /** How many of these descriptors are accepted while there are n clients. */
  function Takes(n: nat, queue: seq<Accepted>, limits: Limits): (taken: nat)
    ensures taken <= |queue|
    decreases |queue|
  {
    if n + 1 > limits.softLimit || n + 1 >= limits.maxClients || queue == [] then 0
    else if queue[0].fd < 0 || queue[0].fd >= limits.maxDescriptors then 0
    else if !limits.canMultiaccept then 1
    else 1 + Takes(n + (if queue[0].named then 1 else 0), queue[1..], limits)
  }

  lemma TakesStep(n: nat, queue: seq<Accepted>, k: nat, limits: Limits)
    requires k <= |queue|
    ensures Takes(n, queue[k..], limits) ==
              if n + 1 > limits.softLimit || n + 1 >= limits.maxClients || k == |queue| then 0
              else if queue[k].fd < 0 || queue[k].fd >= limits.maxDescriptors then 0
              else if !limits.canMultiaccept then 1
              else 1 + Takes(n + (if queue[k].named then 1 else 0), queue[k + 1..], limits)
  {
    if k < |queue| { assert queue[k..][1..] == queue[k + 1..]; }
  }

  function Negated(bs: seq<bool>): (r: seq<bool>)
    ensures |r| == |bs| && forall k :: 0 <= k < |bs| ==> r[k] == !bs[k]
  {
    seq(|bs|, k requires 0 <= k < |bs| => !bs[k])
  }

  /** Which clients are quitting behind an event, in the order in which they joined: also the
      one that a quit event hits, and those that the socket engine refuses. */
  function MarkOne(marks: seq<bool>, event: ServerEvent, limits: Limits): (r: seq<bool>) {
    match event
    case Incoming(queue) => marks + Negated(Admitted(queue[..Takes(|marks|, queue, limits)]))
    case Quit(index) => if index < |marks| then marks[index := true] else marks
  }

  function Marked(marks: seq<bool>, events: seq<ServerEvent>, limits: Limits): (r: seq<bool>) {
    if events == [] then marks
    else MarkOne(Marked(marks, events[..|events| - 1], limits), events[|events| - 1], limits)
  }

  lemma MarkedSteps(marks: seq<bool>, events: seq<ServerEvent>, n: nat, limits: Limits)
    requires n <= |events|
    ensures Marked(marks, events[..0], limits) == marks
    ensures n < |events| ==>
              Marked(marks, events[..n + 1], limits) == MarkOne(Marked(marks, events[..n], limits), events[n], limits)
  {
    hide MarkOne;
    if n < |events| { assert events[..n + 1][..n] == events[..n]; }
  }

  /** A client that was there before is marked behind all events exactly if it was marked, or one
      of them is its quit event. */
  lemma {:induction false} MarkedIff(marks: seq<bool>, events: seq<ServerEvent>, limits: Limits, k: nat)
    requires k < |marks|
    ensures k < |Marked(marks, events, limits)|
    ensures Marked(marks, events, limits)[k] <==> marks[k] || Quit(k) in events
    decreases |events|
  {
    hide Takes, Admitted;
    if events != [] {
      var front, last := events[..|events| - 1], events[|events| - 1];
      MarkedIff(marks, front, limits, k);
      assert events == front + [last];
    }
  }

  ghost predicate NoDuplicates(cs: seq<Client>) {
    forall i, j :: 0 <= i < j < |cs| ==> cs[i] != cs[j]
  }

  /** The clients of cs that are not in gone, in their order. */
  function Keep(cs: seq<Client>, gone: seq<Client>): seq<Client> {
    if cs == [] then []
    else (if cs[0] in gone then [] else [cs[0]]) + Keep(cs[1..], gone)
  }

  lemma {:induction false} KeepIs(cs: seq<Client>, gone: seq<Client>)
    requires NoDuplicates(cs)
    ensures forall c :: c in Keep(cs, gone) <==> c in cs && c !in gone
    ensures NoDuplicates(Keep(cs, gone)) && |Keep(cs, gone)| <= |cs|
    decreases |cs|
  {
    if cs != [] {
      KeepIs(cs[1..], gone);
      assert cs == [cs[0]] + cs[1..];
      assert cs[0] !in cs[1..];
    }
  }

  lemma {:induction false} KeepNone(cs: seq<Client>, gone: seq<Client>)
    requires forall c :: c in cs ==> c !in gone
    ensures Keep(cs, gone) == cs
  {
    if cs != [] {
      assert cs == [cs[0]] + cs[1..] && cs[0] in cs;
      forall c | c in cs[1..] ensures c !in gone { assert c in cs; }
      KeepNone(cs[1..], gone);
    }
  }

  /** Erasing one more client from what was kept keeps one client less. */
  lemma {:induction false} KeepErase(cs: seq<Client>, gone: seq<Client>, c: Client, x: nat)
    requires NoDuplicates(cs) && c !in gone
    requires cs != [] && x < |Keep(cs, gone)| && Keep(cs, gone)[x] == c
    ensures Keep(cs, gone + [c]) == Keep(cs, gone)[..x] + Keep(cs, gone)[x + 1..]
    decreases |cs|
  {
    hide NoDuplicates, Keep;
    var rest := cs[1..];
    TailIsDistinct(cs);
    KeepHead(cs, gone);
    KeepHead(cs, gone + [c]);
    KeepIs(rest, gone);
    var kept := Keep(rest, gone);
    if cs[0] in gone {
      assert rest != [] by { KeepNone([], gone); }
      KeepErase(rest, gone, c, x);
    } else if x == 0 {
      KeepSame(rest, gone, c);
      assert ([c] + kept)[1..] == kept;
    } else {
      assert kept[x - 1] == c;
      assert rest != [] by { KeepNone([], gone); }
      KeepErase(rest, gone, c, x - 1);
      assert ([cs[0]] + kept)[..x] == [cs[0]] + kept[..x - 1];
      assert ([cs[0]] + kept)[x + 1..] == kept[x..];
      assert c in kept;
    }
  }

  lemma KeepHead(cs: seq<Client>, gone: seq<Client>)
    requires cs != []
    ensures Keep(cs, gone) == (if cs[0] in gone then [] else [cs[0]]) + Keep(cs[1..], gone)
  {
  }

  lemma TailIsDistinct(cs: seq<Client>)
    requires cs != [] && NoDuplicates(cs)
    ensures NoDuplicates(cs[1..]) && cs[0] !in cs[1..]
  {
  }

  lemma {:induction false} KeepSame(cs: seq<Client>, gone: seq<Client>, c: Client)
    requires c !in cs
    ensures Keep(cs, gone + [c]) == Keep(cs, gone)
  {
    if cs != [] {
      assert cs == [cs[0]] + cs[1..];
      KeepSame(cs[1..], gone, c);
    }
  }

  class Server {
    const softLimit: nat
    const maxClients: nat
    const maxDescriptors: nat
    const canMultiaccept: bool
    var live: seq<Client>
    var culls: seq<Client>
    /** The clients whose sockets have been closed, in order. */
    ghost var closed: seq<Client>

    ghost predicate Valid()
      reads this, live, culls
    {
      && NoDuplicates(live) && NoDuplicates(culls)
      && |live| <= softLimit && |live| <= maxClients
      && (forall c :: c in culls ==> c in live)
      && (forall c :: c in live ==> (c.quitting <==> c in culls))
    }

    function Limited(): Limits { Limits(softLimit, maxClients, maxDescriptors, canMultiaccept) }

    constructor (softLimit: nat, maxClients: nat, maxDescriptors: nat, canMultiaccept: bool)
      ensures Valid() && live == [] && culls == [] && closed == []
    {
      this.softLimit, this.maxClients, this.maxDescriptors := softLimit, maxClients, maxDescriptors;
      this.canMultiaccept := canMultiaccept;
      live, culls, closed := [], [], [];
    }

    /** CullList::AddItem: a client that is quitting already is not queued again. */
    method AddItem(c: Client)
      requires Valid() && c in live
      modifies this`culls, c`quitting
      ensures Valid() && c.quitting
      ensures culls == old(culls) + (if old(c.quitting) then [] else [c])
    {
      if c.quitting { return; }
      culls := culls + [c];
      c.quitting := true;
    }

    /** ConnectionManager::Delete. */
    method Delete(c: Client)
      requires Valid() && c in live
      modifies this`culls, c`quitting, c`finished
      ensures Valid() && c.quitting && c.finished
      ensures culls == old(culls) + (if old(c.quitting) then [] else [c])
    {
      AddItem(c);
      c.quitting := true;
      c.finished := true;
    }

    /** ConnectionManager::Add: a client that the socket engine refuses is deleted at once. */
    method Add(added: bool, now: int) returns (c: Client)
      requires Valid() && |live| < softLimit && |live| < maxClients
      modifies this`live, this`culls
      ensures Valid() && fresh(c) && live == old(live) + [c]
      ensures culls == old(culls) + (if added then [] else [c]) && (c.quitting <==> !added)
    {
      c := new Client(now);
      live := live + [c];
      if !added { Delete(c); }
    }

    /** The accept loop of ListenSocket::HandleEvent; queue is what accept will deliver, and
        after it accept fails. */
    method AcceptAll(queue: seq<Accepted>, now: int) returns (taken: nat)
      requires Valid()
      modifies this`live, this`culls
      ensures Valid() && taken == Takes(|old(live)|, queue, Limited())
      ensures old(live) <= live && fresh(live[|old(live)|..]) && old(culls) <= culls
      ensures forall c :: c in culls ==> c in old(culls) || c !in old(live)
      // the usable descriptors become clients, and those the engine refuses are quitting
      ensures forall k :: 0 <= k < taken ==> 0 <= queue[k].fd < maxDescriptors
      ensures |live| == |old(live)| + |Admitted(queue[..taken])|
      ensures forall k :: 0 <= k < |Admitted(queue[..taken])| ==>
                (live[|old(live)| + k].quitting <==> !Admitted(queue[..taken])[k])
      // it stops for want of room, at the first failure, or after one when that is all it may take
      ensures !canMultiaccept ==> taken <= 1
      ensures canMultiaccept || taken == 0 ==>
                || |live| >= softLimit || |live| + 1 >= maxClients || taken == |queue|
                || queue[taken].fd < 0 || queue[taken].fd >= maxDescriptors
    {
      hide Admitted, Takes;
      taken := 0;
      AdmittedNone();
      assert queue[..0] == [] && queue[0..] == queue;
      var more := true;
      while more
        invariant Valid() && taken <= |queue|
        invariant old(live) <= live && fresh(live[|old(live)|..]) && old(culls) <= culls
        invariant forall c :: c in culls ==> c in old(culls) || c !in old(live)
        invariant forall k :: 0 <= k < taken ==> 0 <= queue[k].fd < maxDescriptors
        invariant |live| == |old(live)| + |Admitted(queue[..taken])|
        invariant forall k :: 0 <= k < |Admitted(queue[..taken])| ==>
                    (live[|old(live)| + k].quitting <==> !Admitted(queue[..taken])[k])
        invariant more <==> canMultiaccept || taken == 0
        invariant !canMultiaccept ==> taken <= 1
        invariant Takes(|old(live)|, queue, Limited()) ==
                    taken + (if more then Takes(|live|, queue[taken..], Limited()) else 0)
        decreases |queue| - taken, more
      {
        TakesStep(|live|, queue, taken, Limited());
        if |live| + 1 > softLimit || |live| + 1 >= maxClients { break; }
        if taken == |queue| { break; }
        var a := queue[taken];
        if a.fd < 0 || a.fd >= maxDescriptors { break; }
        AdmittedStep(queue, taken);
        taken := taken + 1;
        if a.named {
          var c := Add(a.added, now);
        }
        more := canMultiaccept;
      }
    }

    /** Which of the live clients are quitting. */
    ghost function Quits(): (r: seq<bool>)
      reads this, live
      ensures |r| == |live| && forall k :: 0 <= k < |live| ==> r[k] == live[k].quitting
    {
      seq(|live|, k requires 0 <= k < |live| reads this, live => live[k].quitting)
    }

    /** Which of them will be once the timeouts are handled. */
    ghost function Doomed(timeOutDue: bool, now: int, totalLifetime: int, idleLifetime: int): (r: seq<bool>)
      reads this, live
      ensures |r| == |live| && forall k :: 0 <= k < |live| ==>
                r[k] == (live[k].quitting || (timeOutDue && (now >= live[k].age + totalLifetime ||
                                                             now >= live[k].lastSocketEvent + idleLifetime)))
    {
      seq(|live|, k requires 0 <= k < |live| reads this, live =>
        live[k].quitting || (timeOutDue && (now >= live[k].age + totalLifetime ||
                                            now >= live[k].lastSocketEvent + idleLifetime)))
    }

    /** Lines 520-545 of InspIRCd::Run: what is too old or too idle is deleted. */
    method TimeOut(now: int, totalLifetime: int, idleLifetime: int)
      requires Valid()
      modifies this`culls, live
      ensures Valid() && old(culls) <= culls
      ensures forall c :: c in live ==>
                (c in culls <==>
                 c in old(culls) || now >= c.age + totalLifetime || now >= c.lastSocketEvent + idleLifetime)
      ensures forall c :: c in live ==> c.age == old(c.age) && c.lastSocketEvent == old(c.lastSocketEvent)
    {
      for i := 0 to |live|
        invariant Valid() && old(culls) <= culls
        invariant forall c :: c in live ==> c.age == old(c.age) && c.lastSocketEvent == old(c.lastSocketEvent)
        invariant forall c :: c in live[..i] ==>
                    (c in culls <==>
                     c in old(culls) || now >= c.age + totalLifetime || now >= c.lastSocketEvent + idleLifetime)
        invariant forall c :: c in live[i..] ==> (c in culls <==> c in old(culls))
      {
        var c := live[i];
        assert live[i..] == [c] + live[i + 1..] && live[..i + 1] == live[..i] + [c];
        assert c !in live[..i] && c !in live[i + 1..];
        if now >= c.age + totalLifetime {
          Delete(c);
        } else if now >= c.lastSocketEvent + idleLifetime {
          Delete(c);
        }
      }
    }

    /** Closes every queued client, once and in the order of the queue, and takes exactly
        these out of the list of live clients. */
    method Apply() returns (n: nat)
      requires Valid()
      modifies this
      ensures Valid() && n == |old(culls)| && culls == []
      ensures live == Keep(old(live), old(culls)) && closed == old(closed) + old(culls)
      ensures forall c :: c in live <==> c in old(live) && !old(c.quitting)
    {
      hide Keep;
      n := |culls|;
      ghost var queue, all := culls, live;
      ghost var done := 0;
      KeepNone(all, []);
      while culls != []
        invariant 0 <= done <= |queue| && culls == queue[done..]
        invariant live == Keep(all, queue[..done]) && closed == old(closed) + queue[..done]
        decreases |culls|
      {
        var c := culls[0];
        assert c == queue[done] && c !in queue[..done];
        KeepIs(all, queue[..done]);
        closed := closed + [c];
        ghost var x := Erase(c);
        KeepErase(all, queue[..done], c, x);
        assert queue[..done + 1] == queue[..done] + [c];
        culls := culls[1..];
        done := done + 1;
      }
      assert queue[..done] == queue;
      KeepIs(all, queue);
    }

    /** Lines 47-49 of Apply: finds a client that is in the list, and takes it out. */
    method Erase(c: Client) returns (ghost x: nat)
      requires c in live
      modifies this`live
      ensures x < |old(live)| && old(live)[x] == c && c !in old(live)[..x]
      ensures live == old(live)[..x] + old(live)[x + 1..]
    {
      var i := 0;
      while i < |live| && live[i] != c
        invariant 0 <= i <= |live| && c !in live[..i]
      {
        i := i + 1;
      }
      x := i;
      live := live[..i] + live[i + 1..];
    }

    /** One turn of the main loop: the timeouts if they are due, then the events in any order,
        and at last the culling. The clients that joined come behind the others; of all of them
        exactly those are closed that were quitting, are due, are hit by a quit event or were
        refused, each once, and the others stay in their order. */
    method Turn(now: int, timeOutDue: bool, totalLifetime: int, idleLifetime: int, events: seq<ServerEvent>)
      returns (ghost joined: seq<Client>, ghost gone: seq<Client>)
      requires Valid()
      modifies this, live
      ensures Valid() && culls == []
      ensures fresh(joined) && NoDuplicates(old(live) + joined)
      ensures var marks := Marked(old(Doomed(timeOutDue, now, totalLifetime, idleLifetime)), events, Limited());
              var all := old(live) + joined;
              && |all| == |marks| && forall k :: 0 <= k < |all| ==> (all[k] in gone <==> marks[k])
      ensures forall k :: 0 <= k < old(|live|) ==>
                (old(live)[k] in gone <==>
                 old(Doomed(timeOutDue, now, totalLifetime, idleLifetime))[k] || Quit(k) in events)
      ensures live == Keep(old(live) + joined, gone)
      ensures closed == old(closed) + gone && NoDuplicates(gone) && forall c :: c in gone ==> c in old(live) + joined
      ensures |live| <= softLimit && forall c :: c in live ==> !c.quitting
    {
      hide Keep, Marked, NoDuplicates;
      ghost var first, doomed := live, Doomed(timeOutDue, now, totalLifetime, idleLifetime);
      if timeOutDue { TimeOut(now, totalLifetime, idleLifetime); }
      assert Quits() == doomed;
      HandleEvents(events, now);
      joined, gone := live[|first|..], culls;
      assert live == first + joined;
      forall k | 0 <= k < |first| ensures Quits()[k] <==> doomed[k] || Quit(k) in events {
        MarkedIff(doomed, events, Limited(), k);
      }
      var n := Apply();
    }

    method HandleEvents(events: seq<ServerEvent>, now: int)
      requires Valid()
      modifies this`live, this`culls, live
      ensures Valid() && old(live) <= live && fresh(live[|old(live)|..])
      ensures Quits() == Marked(old(Quits()), events, Limited())
    {
      hide Marked, MarkOne, NoDuplicates;
      ghost var first, marks := live, Quits();
      MarkedSteps(marks, events, 0, Limited());
      for i := 0 to |events|
        invariant Valid() && first <= live && fresh(live[|first|..])
        invariant forall c :: c in live ==> c in old(live) || fresh(c)
        invariant Quits() == Marked(marks, events[..i], Limited())
      {
        MarkedSteps(marks, events, i, Limited());
        ghost var known := live;
        assert events[i].Quit? && events[i].index < |live| ==> live[events[i].index] in live;
        HandleEvent(events[i], now);
        Longer(first, known, live);
        KnownOrNew(known, live);
      }
      assert events[..|events|] == events;
    }

    /** A listening socket is ready, or a connection is deleted. */
    method HandleEvent(event: ServerEvent, now: int)
      requires Valid()
      modifies this`live, this`culls, if event.Quit? && event.index < |live| then {live[event.index]} else {}
      ensures Valid() && old(live) <= live && fresh(live[|old(live)|..])
      ensures Quits() == MarkOne(old(Quits()), event, Limited())
      ensures event.Quit? ==>
                && live == old(live)
                && forall k :: 0 <= k < |live| ==> (live[k].quitting <==> old(live[k].quitting) || k == event.index)
    {
      hide Takes, Admitted;
      match event {
        case Incoming(queue) =>
          var taken := AcceptAll(queue, now);
        case Quit(index) =>
          if index < |live| { Delete(live[index]); }
      }
    }
  }

  lemma Longer(first: seq<Client>, known: seq<Client>, all: seq<Client>)
    requires first <= known <= all
    ensures first <= all && all[|first|..] == known[|first|..] + all[|known|..]
  {
  }

  lemma KnownOrNew(known: seq<Client>, all: seq<Client>)
    requires known <= all
    ensures forall c :: c in all ==> c in known || c in all[|known|..]
  {
    forall c | c in all ensures c in known || c in all[|known|..] {
      var k :| 0 <= k < |all| && all[k] == c;
      if k >= |known| { assert c == all[|known|..][k - |known|]; }
    }
  }
}
