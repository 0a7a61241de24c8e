/**
 Discovery seen from one host. The cache and the callbacks of src/netbios_ns.c are those of one small
 machine per address, which knows nothing of the queue and of other hosts.
 */
module DiscoveryHosts {
  import opened DiscoveryModel
  import opened Options

  /** What is known about one address, and the callbacks made about it. */
  datatype Host = Host(entry: Option<Entry>, events: seq<Event>)

  function HostApply(h: Host, ip: nat, step: Step, limit: int): Host
  {
    match step
    case Sweep(now) =>
      if h.entry.None? || !Expired(h.entry.value, now, limit) then h
      else Host(None, h.events + (if h.entry.value.validName then [Removed(h.entry.value)] else []))
    case NbReply(a, now) =>
      if a != ip then h
      else h.(entry := Some(Seen(if h.entry.Some? then h.entry.value else NewEntry(ip), now)))
    case NbstatReply(a, now, name, group) =>
      if a != ip || h.entry.None? then h
      else
        var e := Named(Seen(h.entry.value, now), name, group);
        Host(Some(e), h.events + (if h.entry.value.validName then [] else [Added(e)]))
  }

  function HostRun(h: Host, ip: nat, steps: seq<Step>, limit: int): Host
  {
    if steps == [] then h
    else HostApply(HostRun(h, ip, steps[..|steps| - 1], limit), ip, steps[|steps| - 1], limit)
  }

  /** The entry of an address in a queue. */
  function Lookup(q: seq<Entry>, ip: nat): Option<Entry>
  {
    if Find(q, ip) < |q| then Some(q[Find(q, ip)]) else None
  }

  /** One host's part of the state of the whole. */
  function View(s: State, ip: nat): Host
  {
    Host(Lookup(s.queue, ip), About(s.log, ip))
  }

  // --- the view follows every step --------------------------------------------------------------

  /** In a queue without duplicates the entry of an address is the only one with it. */
  lemma LookupIs(q: seq<Entry>, ip: nat, e: Entry)
    requires Distinct(q)
    ensures Lookup(q, ip) == Some(e) <==> e in q && e.address == ip
  {
    if e in q && e.address == ip {
      var i :| 0 <= i < |q| && q[i] == e;
      assert Find(q, ip) == i;
    }
  }

  lemma LookupNone(q: seq<Entry>, ip: nat)
    requires Distinct(q)
    ensures Lookup(q, ip) == None <==> forall e :: e in q ==> e.address != ip
  {
    var k := Find(q, ip);
    if k < |q| { assert q[k] in q; }
  }

  lemma LookupUpdate(q: seq<Entry>, k: nat, e: Entry, ip: nat)
    requires Distinct(q) && k < |q| && e.validIp && e.address == q[k].address
    ensures Distinct(q[k := e])
    ensures Lookup(q[k := e], ip) == if ip == e.address then Some(e) else Lookup(q, ip)
  {
    var q' := q[k := e];
    if ip == e.address {
      assert q'[k] == e;
      LookupIs(q', ip, e);
    } else {
      var i := Find(q, ip);
      if i < |q| {
        assert q'[i] == q[i];
        LookupIs(q', ip, q[i]);
      } else {
        LookupNone(q', ip);
      }
    }
  }

  lemma {:induction false} AboutConcat(a: seq<Event>, b: seq<Event>, ip: nat)
    ensures About(a + b, ip) == About(a, ip) + About(b, ip)
    decreases |b|
  {
    if b == [] {
      assert a + b == a;
    } else {
      AboutConcat(a, b[..|b| - 1], ip);
      assert (a + b)[..|a + b| - 1] == a + b[..|b| - 1];
    }
  }

  lemma {:induction false} AboutMissing(q: seq<Entry>, ip: nat, now: int, limit: int)
    requires forall e :: e in q ==> e.address != ip
    ensures About(Evicted(q, now, limit), ip) == []
    ensures forall e :: e in Kept(q, now, limit) ==> e.address != ip
    decreases |q|
  {
    hide Expired;
    if q != [] {
      var front, e := q[..|q| - 1], q[|q| - 1];
      AboutMissing(front, ip, now, limit);
      AboutConcat(Evicted(front, now, limit), [Removed(e)], ip);
      AboutOne(Removed(e), ip);
      assert e in q && Evicted(front, now, limit) + [] == Evicted(front, now, limit);
    }
  }

  lemma AboutOne(event: Event, ip: nat)
    ensures About([event], ip) == if event.entry.address == ip then [event] else []
    ensures About([], ip) == []
  {
    assert [event][..0] == [];
  }

  lemma SweepOne(e: Entry, now: int, limit: int)
    ensures Kept([e], now, limit) == if Expired(e, now, limit) then [] else [e]
    ensures Evicted([e], now, limit) == if Expired(e, now, limit) && e.validName then [Removed(e)] else []
  {
    assert [e][..0] == [];
    SweepNone(now, limit);
  }

  /** The queue around its entry `k`: nothing else in it concerns that entry's address. */
  lemma SweepAround(q: seq<Entry>, k: nat, now: int, limit: int)
    requires Distinct(q) && k < |q|
    ensures About(Evicted(q, now, limit), q[k].address)
         == if Expired(q[k], now, limit) && q[k].validName then [Removed(q[k])] else []
  {
    hide Evicted, Kept, Expired, About;
    var e, before, behind := q[k], q[..k], q[k + 1..];
    assert q == before + [e] + behind;
    SweepConcat(before + [e], behind, now, limit);
    SweepConcat(before, [e], now, limit);
    AboutMissing(before, e.address, now, limit);
    AboutMissing(behind, e.address, now, limit);
    SweepOne(e, now, limit);
    AboutConcat(Evicted(before, now, limit) + Evicted([e], now, limit), Evicted(behind, now, limit), e.address);
    AboutConcat(Evicted(before, now, limit), Evicted([e], now, limit), e.address);
    AboutOne(Removed(e), e.address);
  }

  lemma SweepView(q0: seq<Entry>, s: State, now: int, limit: int, ip: nat)
    requires Consistent(q0, s)
    ensures View(Apply(s, Sweep(now), limit), ip) == HostApply(View(s, ip), ip, Sweep(now), limit)
  {
    hide Evicted, Kept, Expired, About, Find, Consistent;
    StepKeepsConsistent(q0, s, Sweep(now), limit);
    ConsistentIsDistinct(q0, s);
    ConsistentIsDistinct(q0, Apply(s, Sweep(now), limit));
    AboutConcat(s.log, Evicted(s.queue, now, limit), ip);
    var kept := Kept(s.queue, now, limit);
    match Lookup(s.queue, ip) {
      case None =>
        LookupNone(s.queue, ip);
        LookupNone(kept, ip);
        AboutMissing(s.queue, ip, now, limit);
      case Some(e) =>
        LookupIs(s.queue, ip, e);
        var k :| 0 <= k < |s.queue| && s.queue[k] == e;
        SweepAround(s.queue, k, now, limit);
        SweepIsFilter(s.queue, now, limit, e);
        LookupIs(kept, ip, e);
        if Expired(e, now, limit) {
          LookupNone(kept, ip);
          forall e' | e' in kept
            ensures e'.address != ip
          {
            SweepIsFilter(s.queue, now, limit, e');
            LookupIs(s.queue, ip, e');
          }
        }
    }
  }

  lemma ConsistentIsDistinct(q0: seq<Entry>, s: State)
    requires Consistent(q0, s)
    ensures Distinct(s.queue)
  {
  }

  lemma LookupCons(q: seq<Entry>, e: Entry, ip: nat)
    requires e.validIp
    ensures Lookup([e] + q, ip) == if ip == e.address then Some(e) else Lookup(q, ip)
  {
    assert ([e] + q)[1..] == q;
  }

  lemma StepView(q0: seq<Entry>, s: State, step: Step, limit: int, ip: nat)
    requires Consistent(q0, s)
    ensures View(Apply(s, step, limit), ip) == HostApply(View(s, ip), ip, step, limit)
  {
    match step
    case Sweep(now) => SweepView(q0, s, now, limit, ip);
    case NbReply(a, now) =>
      var k := Find(s.queue, a);
      if k < |s.queue| {
        LookupUpdate(s.queue, k, Seen(s.queue[k], now), ip);
      } else {
        LookupCons(s.queue, Seen(NewEntry(a), now), ip);
      }
    case NbstatReply(a, now, name, group) =>
      var k := Find(s.queue, a);
      if k < |s.queue| {
        var e := Named(Seen(s.queue[k], now), name, group);
        LookupUpdate(s.queue, k, e, ip);
        AboutConcat(s.log, [Added(e)], ip);
        AboutOne(Added(e), ip);
      }
  }

  /** The cached entry of every address and the callbacks about it are those of its own machine. */
  lemma {:induction false} RunIsByHost(q0: seq<Entry>, steps: seq<Step>, limit: int, ip: nat)
    requires Distinct(q0)
    ensures View(Run(State(q0, []), steps, limit), ip)
         == HostRun(Host(Lookup(q0, ip), []), ip, steps, limit)
  {
    hide Consistent, Apply, HostApply, Find;
    if steps == [] {
      assert About([], ip) == [];
    } else {
      var front := steps[..|steps| - 1];
      RunIsByHost(q0, front, limit, ip);
      RunIsConsistent(q0, front, limit);
      StepView(q0, Run(State(q0, []), front, limit), steps[|steps| - 1], limit, ip);
    }
  }

  // --- what follows for a host ------------------------------------------------------------------

  predicate Concerns(step: Step, ip: nat)
  {
    step.Sweep? || step.ip == ip
  }

  /** The sweeps and the replies of one host. */
  function Relevant(steps: seq<Step>, ip: nat): seq<Step>
  {
    if steps == [] then []
    else Relevant(steps[..|steps| - 1], ip) + (if Concerns(steps[|steps| - 1], ip) then [steps[|steps| - 1]] else [])
  }

  lemma HostRunSnoc(h: Host, ip: nat, steps: seq<Step>, step: Step, limit: int)
    ensures HostRun(h, ip, steps + [step], limit) == HostApply(HostRun(h, ip, steps, limit), ip, step, limit)
  {
    assert (steps + [step])[..|steps|] == steps;
  }

  lemma {:induction false} HostRunRelevant(h: Host, ip: nat, steps: seq<Step>, limit: int)
    ensures HostRun(h, ip, steps, limit) == HostRun(h, ip, Relevant(steps, ip), limit)
  {
    if steps != [] {
      var front := Relevant(steps[..|steps| - 1], ip);
      HostRunRelevant(h, ip, steps[..|steps| - 1], limit);
      HostRunSnoc(h, ip, front, steps[|steps| - 1], limit);
      assert front + [] == front;
    }
  }

  /** Two runs that agree on the sweeps and on what one host answers agree on that host. */
  lemma OtherHostsDoNotMatter(a: seq<Step>, b: seq<Step>, limit: int, ip: nat)
    requires Relevant(a, ip) == Relevant(b, ip)
    ensures View(Run(State([], []), a, limit), ip) == View(Run(State([], []), b, limit), ip)
  {
    hide HostRun, View, Run;
    RunIsByHost([], a, limit, ip);
    RunIsByHost([], b, limit, ip);
    HostRunRelevant(Host(Lookup([], ip), []), ip, a, limit);
    HostRunRelevant(Host(Lookup([], ip), []), ip, b, limit);
  }

  /** When a host last answered anything. */
  function LastAnswer(steps: seq<Step>, ip: nat): Option<int>
  {
    if steps == [] then None
    else
      var last := steps[|steps| - 1];
      if !last.Sweep? && last.ip == ip then Some(last.now) else LastAnswer(steps[..|steps| - 1], ip)
  }

  const STRANGER := Host(None, [])

  /** The time stamp of an entry is the time of the host's last answer of either kind. */
  lemma {:induction false} SeenIsLastAnswer(steps: seq<Step>, limit: int, ip: nat)
    ensures var e := HostRun(STRANGER, ip, steps, limit).entry;
            e.Some? ==> LastAnswer(steps, ip) == Some(e.value.lastSeen) && e.value.address == ip
  {
    if steps != [] {
      SeenIsLastAnswer(steps[..|steps| - 1], limit, ip);
    }
  }

  /** The last answer of a host that gave its names. */
  function LastNames(steps: seq<Step>, ip: nat): Option<Step>
  {
    if steps == [] then None
    else
      var last := steps[|steps| - 1];
      if NamesGiven(last, ip) then Some(last) else LastNames(steps[..|steps| - 1], ip)
  }

  /** The last group a host gave, if it has given one. */
  function LastGroup(steps: seq<Step>, ip: nat): Option<WireName>
  {
    if steps == [] then None
    else
      var last := steps[|steps| - 1];
      if NamesGiven(last, ip) && last.group.Some? then last.group else LastGroup(steps[..|steps| - 1], ip)
  }

  /**
   The name of an entry is the one in the last answer with names. Its group is the last one given, or
   none if the host has been cached anew since.
   */
  lemma {:induction false} NameIsLastGiven(steps: seq<Step>, limit: int, ip: nat)
    ensures var e := HostRun(STRANGER, ip, steps, limit).entry;
            e.Some? && e.value.validName ==>
              && LastNames(steps, ip).Some? && NamesGiven(LastNames(steps, ip).value, ip)
              && e.value.name == StoredName(LastNames(steps, ip).value.name)
    ensures var e := HostRun(STRANGER, ip, steps, limit).entry;
            e.Some? ==> e.value.group == UNNAMED
                        || (LastGroup(steps, ip).Some? && e.value.group == StoredName(LastGroup(steps, ip).value))
    ensures var e, names := HostRun(STRANGER, ip, steps, limit).entry, LastNames(steps, ip);
            e.Some? && e.value.validName && names.Some? && NamesGiven(names.value, ip) && names.value.group.Some? ==>
              e.value.group == StoredName(names.value.group.value)
  {
    hide StoredName;
    if steps != [] {
      NameIsLastGiven(steps[..|steps| - 1], limit, ip);
    }
  }

  /**
   A sweep forgets a cached host exactly if its last answer is older than the limit, and reports that
   exactly if the host had been reported before.
   */
  lemma SweepForgets(steps: seq<Step>, now: int, limit: int, ip: nat)
    requires View(Run(State([], []), steps, limit), ip).entry.Some?
    ensures LastAnswer(steps, ip).Some?
    ensures var h, h' := View(Run(State([], []), steps, limit), ip), View(Run(State([], []), steps + [Sweep(now)], limit), ip);
            && (h'.entry.None? <==> now - LastAnswer(steps, ip).value > limit)
            && (h'.entry.Some? ==> h' == h)
            && (h'.entry.None? ==> h'.events == h.events + (if |h.events| % 2 == 1 then [Removed(h.entry.value)] else []))
  {
    hide Run, Find, HostRun, About, LastAnswer;
    RunIsByHost([], steps, limit, ip);
    RunIsByHost([], steps + [Sweep(now)], limit, ip);
    HostRunSnoc(STRANGER, ip, steps, Sweep(now), limit);
    SeenIsLastAnswer(steps, limit, ip);
    NamedIsReported(steps, limit, ip);
  }

  /** A cached host has a name exactly if its last callback was an addition. */
  lemma NamedIsReported(steps: seq<Step>, limit: int, ip: nat)
    requires View(Run(State([], []), steps, limit), ip).entry.Some?
    ensures var h := View(Run(State([], []), steps, limit), ip);
            h.entry.value.validName <==> |h.events| % 2 == 1
  {
    var s := Run(State([], []), steps, limit);
    CallbacksAlternate(steps, limit);
    var e := Lookup(s.queue, ip).value;
    assert HasName(s.queue, ip) <==> e.validName;
  }

  /** The steps that lead to an announcement: an answer to the broadcast, then one with names. */
  ghost predicate Announced(steps: seq<Step>, e: Entry)
  {
    exists i, j :: 0 <= i < j < |steps| && Announces(steps[i], steps[j], e)
  }

  predicate Announces(first: Step, second: Step, e: Entry)
  {
    && first.NbReply? && first.ip == e.address
    && second.NbstatReply? && second.ip == e.address && second.now == e.lastSeen
    && e.name == StoredName(second.name) && (second.group.Some? ==> e.group == StoredName(second.group.value))
  }

  /** The sweep that leads to a removal, after the host has been silent for longer than the limit. */
  ghost predicate FellSilent(steps: seq<Step>, e: Entry, limit: int)
  {
    exists j :: 0 <= j < |steps| && steps[j].Sweep?
             && steps[j].now - e.lastSeen > limit && LastAnswer(steps[..j], e.address) == Some(e.lastSeen)
  }

  ghost predicate Explained(steps: seq<Step>, event: Event, limit: int)
  {
    match event
    case Added(e) => Announced(steps, e)
    case Removed(e) => FellSilent(steps, e, limit)
  }

  lemma ExplainedLonger(steps: seq<Step>, step: Step, event: Event, limit: int)
    requires Explained(steps, event, limit)
    ensures Explained(steps + [step], event, limit)
  {
    hide LastAnswer, Announces;
    var all, e := steps + [step], event.entry;
    match event
    case Added(e) =>
      var i, j :| 0 <= i < j < |steps| && Announces(steps[i], steps[j], e);
      assert all[i] == steps[i] && all[j] == steps[j];
    case Removed(e) =>
      var j :| 0 <= j < |steps| && steps[j].Sweep?
            && steps[j].now - e.lastSeen > limit && LastAnswer(steps[..j], e.address) == Some(e.lastSeen);
      assert all[j] == steps[j] && all[..j] == steps[..j];
  }

  /** A host in the cache has answered the broadcast. */
  lemma {:induction false} CachedHasAnswered(steps: seq<Step>, limit: int, ip: nat)
    requires HostRun(STRANGER, ip, steps, limit).entry.Some?
    ensures exists i :: 0 <= i < |steps| && steps[i].NbReply? && steps[i].ip == ip
  {
    var front, last := steps[..|steps| - 1], steps[|steps| - 1];
    if !(last.NbReply? && last.ip == ip) {
      CachedHasAnswered(front, limit, ip);
      var i :| 0 <= i < |front| && front[i].NbReply? && front[i].ip == ip;
      assert steps[i] == front[i];
    }
  }

  lemma NewEventExplained(steps: seq<Step>, step: Step, limit: int, ip: nat, event: Event)
    requires event in HostRun(STRANGER, ip, steps + [step], limit).events
    requires event !in HostRun(STRANGER, ip, steps, limit).events
    ensures Explained(steps + [step], event, limit)
  {
    hide LastAnswer, HostRun;
    HostRunSnoc(STRANGER, ip, steps, step, limit);
    SeenIsLastAnswer(steps, limit, ip);
    var all, e := steps + [step], event.entry;
    assert all[|steps|] == step && all[..|steps|] == steps;
    if step.NbstatReply? {
      CachedHasAnswered(steps, limit, ip);
      var i :| 0 <= i < |steps| && steps[i].NbReply? && steps[i].ip == ip;
      assert all[i] == steps[i] && Announces(all[i], all[|steps|], e);
    }
  }

  lemma {:induction false} HostEventsExplained(steps: seq<Step>, limit: int, ip: nat, event: Event)
    requires event in HostRun(STRANGER, ip, steps, limit).events
    ensures Explained(steps, event, limit)
  {
    hide Explained, HostApply;
    if steps != [] {
      var front, last := steps[..|steps| - 1], steps[|steps| - 1];
      assert steps == front + [last];
      if event in HostRun(STRANGER, ip, front, limit).events {
        HostEventsExplained(front, limit, ip, event);
        ExplainedLonger(front, last, event, limit);
      } else {
        NewEventExplained(front, last, limit, ip, event);
      }
    }
  }

  lemma {:induction false} AboutHolds(log: seq<Event>, event: Event)
    requires event in log
    ensures event in About(log, event.entry.address)
  {
    if log[|log| - 1] != event { AboutHolds(log[..|log| - 1], event); }
  }

  /**
   No callback without a reason: a host is announced under the name it gave and only after it had
   answered the broadcast, and is reported gone only by a sweep that finds its last answer too old.
   */
  lemma CallbacksExplained(steps: seq<Step>, limit: int, event: Event)
    requires event in Run(State([], []), steps, limit).log
    ensures Explained(steps, event, limit)
  {
    hide Run, HostRun, Explained;
    AboutHolds(Run(State([], []), steps, limit).log, event);
    RunIsByHost([], steps, limit, event.entry.address);
    HostEventsExplained(steps, limit, event.entry.address, event);
  }

  // --- and the other way round ----------------------------------------------------------------------

  /** No sweep between two steps finds the host's last answer too old. */
  ghost predicate KeptUpTo(steps: seq<Step>, limit: int, ip: nat, i: nat, j: nat)
    requires j <= |steps|
  {
    forall k :: i < k < j && steps[k].Sweep? ==>
      LastAnswer(steps[..k], ip).Some? && steps[k].now - LastAnswer(steps[..k], ip).value <= limit
  }

  /** A host that has answered the broadcast stays cached until a sweep finds its last answer too old. */
  lemma {:induction false} StaysCached(steps: seq<Step>, limit: int, ip: nat, i: nat, j: nat)
    requires i < j <= |steps| && steps[i].NbReply? && steps[i].ip == ip && KeptUpTo(steps, limit, ip, i, j)
    ensures HostRun(STRANGER, ip, steps[..j], limit).entry.Some?
    decreases j
  {
    hide LastAnswer, HostRun;
    var front, last := steps[..j - 1], steps[j - 1];
    assert steps[..j] == front + [last];
    HostRunSnoc(STRANGER, ip, front, last, limit);
    if i < j - 1 {
      StaysCached(steps, limit, ip, i, j - 1);
      SeenIsLastAnswer(front, limit, ip);
    }
  }

  predicate NamesGiven(step: Step, ip: nat) { step.NbstatReply? && step.ip == ip }

  /** A name comes from an answer that gave it. */
  lemma {:induction false} UnnamedUntilGiven(steps: seq<Step>, limit: int, ip: nat)
    requires forall k :: 0 <= k < |steps| ==> !NamesGiven(steps[k], ip)
    ensures var e := HostRun(STRANGER, ip, steps, limit).entry;
            e.Some? ==> !e.value.validName
  {
    if steps != [] {
      assert !NamesGiven(steps[|steps| - 1], ip);
      UnnamedUntilGiven(steps[..|steps| - 1], limit, ip);
    }
  }

  lemma {:induction false} LogGrows(s: State, steps: seq<Step>, limit: int, n: nat)
    requires n <= |steps|
    ensures Run(s, steps[..n], limit).log <= Run(s, steps, limit).log
    decreases |steps|
  {
    hide Kept, Evicted, Find;
    if n == |steps| {
      assert steps[..n] == steps;
    } else {
      LogGrows(s, steps[..|steps| - 1], limit, n);
      assert steps[..|steps| - 1][..n] == steps[..n];
    }
  }

  lemma {:induction false} AboutIsPart(log: seq<Event>, ip: nat, event: Event)
    requires event in About(log, ip)
    ensures event in log
  {
    if log != [] && event in About(log[..|log| - 1], ip) { AboutIsPart(log[..|log| - 1], ip, event); }
  }

  /** The step that gives the names of a cached host without one announces it under its name. */
  lemma NamingAnnounces(h: Host, ip: nat, step: Step, limit: int)
    requires NamesGiven(step, ip) && h.entry.Some? && !h.entry.value.validName && h.entry.value.address == ip
    ensures var h' := HostApply(h, ip, step, limit);
            && h'.entry.Some? && Added(h'.entry.value) in h'.events
            && h'.entry.value.address == ip && h'.entry.value.name == StoredName(step.name)
            && (step.group.Some? ==> h'.entry.value.group == StoredName(step.group.value))
  {
    hide StoredName;
    var h' := HostApply(h, ip, step, limit);
    assert h'.events[|h'.events| - 1] == Added(h'.entry.value);
  }

  /**
   A host that answers the broadcast, and then gives its names for the first time before a sweep has
   found its last answer too old, is announced under the name it gave.
   */
  lemma AnnouncedWhenNamed(steps: seq<Step>, limit: int, ip: nat, i: nat, j: nat)
    requires i < j < |steps| && steps[i].NbReply? && steps[i].ip == ip && NamesGiven(steps[j], ip)
    requires KeptUpTo(steps, limit, ip, i, j)
    requires forall k :: 0 <= k < j ==> !NamesGiven(steps[k], ip)
    ensures exists e: Entry :: Added(e) in Run(State([], []), steps, limit).log && e.address == ip
              && e.name == StoredName(steps[j].name)
              && (steps[j].group.Some? ==> e.group == StoredName(steps[j].group.value))
  {
    hide Run, HostRun, HostApply, About, StoredName, LastAnswer;
    var before, h := steps[..j], HostRun(STRANGER, ip, steps[..j], limit);
    StaysCached(steps, limit, ip, i, j);
    UnnamedUntilGiven(before, limit, ip);
    SeenIsLastAnswer(before, limit, ip);
    NamingAnnounces(h, ip, steps[j], limit);
    HostRunSnoc(STRANGER, ip, before, steps[j], limit);
    assert before + [steps[j]] == steps[..j + 1];
    RunIsByHost([], steps[..j + 1], limit, ip);
    var e := HostApply(h, ip, steps[j], limit).entry.value;
    AboutIsPart(Run(State([], []), steps[..j + 1], limit).log, ip, Added(e));
    LogGrows(State([], []), steps, limit, j + 1);
  }
}
