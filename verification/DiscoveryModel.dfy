/**
 What host discovery (src/netbios_ns.c) does to its cache of entries and which callbacks it makes,
 as a state machine over values. `Discovery` shows that the linked-list code takes these steps.
 */
module DiscoveryModel {
  import opened Bytes
  import opened Options
  import NameReply

  type Name = s: seq<byte> | |s| == 16 witness Fill(0, 16)
  type WireName = s: seq<byte> | |s| == 15 witness Fill(0, 15)

  const UNNAMED: Name := Fill(0, 16)

  /** A `netbios_ns_entry`, without its list links. */
  datatype Entry = Entry(address: nat, name: Name, group: Name, kind: byte, validIp: bool, validName: bool,
                         lastSeen: int)

  /** A call of one of the two user callbacks, with the entry handed to it. */
  datatype Event = Added(entry: Entry) | Removed(entry: Entry)

  datatype State = State(queue: seq<Entry>, log: seq<Event>)

  // --- one step of each kind --------------------------------------------------------------------

  /** The index of the first entry with this address, or the length of the queue. */
  function Find(q: seq<Entry>, ip: nat): (k: nat)
    ensures k <= |q|
    ensures k < |q| ==> q[k].validIp && q[k].address == ip
    ensures forall i :: 0 <= i < k ==> !(q[i].validIp && q[i].address == ip)
  {
    if q == [] then 0
    else if q[0].validIp && q[0].address == ip then 0
    else 1 + Find(q[1..], ip)
  }

  /** How many of the first `n` octets stay without trailing spaces; the first always does. */
  function Trimmed(s: WireName, n: nat): (r: nat)
    requires 1 <= n <= 15
    ensures 1 <= r <= n
  {
    if n == 1 || s[n - 1] != ' ' as int then n else Trimmed(s, n - 1)
  }

  /** The NUL-padded string `netbios_ns_copy_name` stores. */
  function StoredName(s: WireName): Name
  {
    s[..Trimmed(s, 15)] + Fill(0, 16 - Trimmed(s, 15))
  }

  /** What is left out of a stored name are spaces only, and what is kept ends in none, unless it is one octet. */
  lemma {:induction false} TrimmedAtLastSpace(s: WireName, n: nat)
    requires 1 <= n <= 15
    ensures forall i :: Trimmed(s, n) <= i < n ==> s[i] == ' ' as int
    ensures Trimmed(s, n) == 1 || s[Trimmed(s, n) - 1] != ' ' as int
  {
    if n > 1 { TrimmedAtLastSpace(s, n - 1); }
  }

  /** Exactly the first `n` octets of a name are left when the spaces it ends in are taken off. */
  predicate TrimmedTo(s: WireName, n: nat, r: Name)
  {
    && 1 <= n <= 15 && (n == 1 || s[n - 1] != ' ' as int) && (forall i :: n <= i < 15 ==> s[i] == ' ' as int)
    && forall i :: 0 <= i < 16 ==> r[i] == if i < n then s[i] else 0
  }

  /** A stored name is the name given, without the spaces it ends in but not without its first octet, and zeros. */
  lemma StoredNameIsTrimmed(s: WireName)
    ensures exists n :: TrimmedTo(s, n, StoredName(s))
  {
    TrimmedAtLastSpace(s, 15);
    assert TrimmedTo(s, Trimmed(s, 15), StoredName(s));
  }

  function Seen(e: Entry, now: int): Entry { e.(lastSeen := now) }

  function NewEntry(ip: nat): Entry
  {
    Entry(ip, UNNAMED, UNNAMED, 0, true, false, 0)
  }

  function Named(e: Entry, name: WireName, group: Option<WireName>): Entry
  {
    e.(name := StoredName(name),
       group := if group.Some? then StoredName(group.value) else e.group,
       kind := NameReply.FILESERVER, validName := true)
  }

  function Expired(e: Entry, now: int, limit: int): bool { now - e.lastSeen > limit }

  function Kept(q: seq<Entry>, now: int, limit: int): seq<Entry>
  {
    if q == [] then []
    else
      var e := q[|q| - 1];
      Kept(q[..|q| - 1], now, limit) + (if Expired(e, now, limit) then [] else [e])
  }

  /** The removals reported by a sweep, in queue order. */
  function Evicted(q: seq<Entry>, now: int, limit: int): seq<Event>
  {
    if q == [] then []
    else
      var e := q[|q| - 1];
      Evicted(q[..|q| - 1], now, limit) + (if Expired(e, now, limit) && e.validName then [Removed(e)] else [])
  }

  lemma SweepOneMore(q: seq<Entry>, i: nat, now: int, limit: int)
    requires i < |q|
    ensures Kept(q[..i + 1], now, limit) == Kept(q[..i], now, limit) + (if Expired(q[i], now, limit) then [] else [q[i]])
    ensures Evicted(q[..i + 1], now, limit)
         == Evicted(q[..i], now, limit) + (if Expired(q[i], now, limit) && q[i].validName then [Removed(q[i])] else [])
  {
    assert q[..i + 1][..i] == q[..i];
  }

  lemma SweepNone(now: int, limit: int)
    ensures Kept([], now, limit) == [] && Evicted([], now, limit) == []
  {
  }

  /** A sweep works entry by entry, in order. */
  lemma {:induction false} SweepConcat(a: seq<Entry>, b: seq<Entry>, now: int, limit: int)
    ensures Kept(a + b, now, limit) == Kept(a, now, limit) + Kept(b, now, limit)
    ensures Evicted(a + b, now, limit) == Evicted(a, now, limit) + Evicted(b, now, limit)
    decreases |b|
  {
    hide Expired, Kept, Evicted;
    if b == [] {
      assert a + b == a;
      SweepNone(now, limit);
    } else {
      var front, last := b[..|b| - 1], b[|b| - 1];
      SweepConcat(a, front, now, limit);
      SweepOneMore(b, |front|, now, limit);
      assert b[..|front| + 1] == b && b[..|front|] == front;
      SweepOneMore(a + b, |a + front|, now, limit);
      assert (a + b)[..|a + front| + 1] == a + b && (a + b)[..|a + front|] == a + front;
      assert (a + b)[|a + front|] == last;
    }
  }

  /** An entry stays exactly if it has not expired, and is reported exactly if it goes and had a name. */
  lemma {:induction false} SweepIsFilter(q: seq<Entry>, now: int, limit: int, e: Entry)
    ensures e in Kept(q, now, limit) <==> e in q && !Expired(e, now, limit)
    ensures Removed(e) in Evicted(q, now, limit) <==> e in q && Expired(e, now, limit) && e.validName
    decreases |q|
  {
    hide Expired;
    if q != [] {
      SweepIsFilter(q[..|q| - 1], now, limit, e);
      assert q == q[..|q| - 1] + [q[|q| - 1]];
    }
  }

  datatype Step =
    | Sweep(now: int)
    | NbReply(ip: nat, now: int)
    | NbstatReply(ip: nat, now: int, name: WireName, group: Option<WireName>)

  function Apply(s: State, step: Step, limit: int): State
  {
    match step
    case Sweep(now) => State(Kept(s.queue, now, limit), s.log + Evicted(s.queue, now, limit))
    case NbReply(ip, now) =>
      var k := Find(s.queue, ip);
      if k < |s.queue| then s.(queue := s.queue[k := Seen(s.queue[k], now)])
      else s.(queue := [Seen(NewEntry(ip), now)] + s.queue)
    case NbstatReply(ip, now, name, group) =>
      var k := Find(s.queue, ip);
      if k == |s.queue| then s
      else
        var e := Named(Seen(s.queue[k], now), name, group);
        State(s.queue[k := e], if s.queue[k].validName then s.log else s.log + [Added(e)])
  }

  function Run(s: State, steps: seq<Step>, limit: int): State
  {
    if steps == [] then s else Apply(Run(s, steps[..|steps| - 1], limit), steps[|steps| - 1], limit)
  }

  // --- what a user of the callbacks sees ----------------------------------------------------------

  /** Whether the last event about `ip` was its addition; `before` is how things stood at first. */
  function Live(before: bool, log: seq<Event>, ip: nat): bool
  {
    if log == [] then before
    else if log[|log| - 1].entry.address == ip then log[|log| - 1].Added?
    else Live(before, log[..|log| - 1], ip)
  }

  /** No addition of a live address, no removal of one that is not live. */
  predicate Alternates(before: bool, log: seq<Event>, ip: nat)
  {
    log == [] ||
    (var last := log[|log| - 1];
     var front := log[..|log| - 1];
     && Alternates(before, front, ip)
     && (last.entry.address == ip ==> last.Added? != Live(before, front, ip)))
  }

  /** The events about one address, in order. */
  function About(log: seq<Event>, ip: nat): seq<Event>
  {
    if log == [] then []
    else
      About(log[..|log| - 1], ip) + (if log[|log| - 1].entry.address == ip then [log[|log| - 1]] else [])
  }

  ghost predicate HasName(q: seq<Entry>, ip: nat)
  {
    exists i :: 0 <= i < |q| && q[i].address == ip && q[i].validName
  }

  /** Every entry was added for an address, and no address twice. */
  ghost predicate Distinct(q: seq<Entry>)
  {
    && (forall i :: 0 <= i < |q| ==> q[i].validIp)
    && (forall i, j :: 0 <= i < j < |q| ==> q[i].address != q[j].address)
  }

  /** The log so far, seen against the queue it started from. */
  ghost predicate Consistent(q0: seq<Entry>, s: State)
  {
    && Distinct(s.queue)
    && (forall ip: nat :: Alternates(HasName(q0, ip), s.log, ip))
    && (forall ip: nat :: Live(HasName(q0, ip), s.log, ip) == HasName(s.queue, ip))
  }

  // --- every step keeps the two views together ------------------------------------------------------

  lemma LiveSnoc(before: bool, log: seq<Event>, e: Event, ip: nat)
    ensures Live(before, log + [e], ip) == if e.entry.address == ip then e.Added? else Live(before, log, ip)
    ensures Alternates(before, log + [e], ip) ==
            (Alternates(before, log, ip) && (e.entry.address == ip ==> e.Added? != Live(before, log, ip)))
  {
    assert (log + [e])[..|log|] == log;
  }

  /** Replacing an entry by one for the same address changes the naming of that address only. */
  lemma HasNameUpdate(q: seq<Entry>, k: nat, e: Entry, ip: nat)
    requires Distinct(q) && k < |q| && e.address == q[k].address
    ensures HasName(q[k := e], ip) == if ip == e.address then e.validName else HasName(q, ip)
  {
    var q' := q[k := e];
    if ip == e.address {
      if e.validName { assert q'[k] == e; }
    } else {
      if HasName(q, ip) {
        var i :| 0 <= i < |q| && q[i].address == ip && q[i].validName;
        assert q'[i] == q[i];
      }
      if HasName(q', ip) {
        var i :| 0 <= i < |q'| && q'[i].address == ip && q'[i].validName;
        assert q'[i] == q[i];
      }
    }
  }

  lemma HasNameWithout(q: seq<Entry>, k: nat, ip: nat)
    requires Distinct(q) && k < |q|
    ensures HasName(q[..k] + q[k + 1..], ip) == (ip != q[k].address && HasName(q, ip))
  {
    var q' := q[..k] + q[k + 1..];
    if HasName(q', ip) {
      var i :| 0 <= i < |q'| && q'[i].address == ip && q'[i].validName;
      var j := if i < k then i else i + 1;
      assert q[j] == q'[i];
    }
    if HasName(q, ip) && ip != q[k].address {
      var i :| 0 <= i < |q| && q[i].address == ip && q[i].validName;
      var j := if i < k then i else i - 1;
      assert q'[j] == q[i];
    }
  }

  /** Dropping one entry, with the removal callback if it had a name. */
  lemma RemovalKeepsConsistent(q0: seq<Entry>, s: State, k: nat)
    requires Consistent(q0, s) && k < |s.queue|
    ensures Consistent(q0, State(s.queue[..k] + s.queue[k + 1..],
                                 if s.queue[k].validName then s.log + [Removed(s.queue[k])] else s.log))
  {
    var e := s.queue[k];
    forall ip: nat
      ensures var log := if e.validName then s.log + [Removed(e)] else s.log;
              && Alternates(HasName(q0, ip), log, ip)
              && Live(HasName(q0, ip), log, ip) == HasName(s.queue[..k] + s.queue[k + 1..], ip)
    {
      LiveSnoc(HasName(q0, ip), s.log, Removed(e), ip);
      HasNameWithout(s.queue, k, ip);
      HasNameUpdate(s.queue, k, e, ip);
      assert s.queue[k := e] == s.queue;
    }
  }

  /** Giving an entry a name, with the addition callback if it had none. */
  lemma NamingKeepsConsistent(q0: seq<Entry>, s: State, k: nat, e: Entry)
    requires Consistent(q0, s) && k < |s.queue|
    requires e.address == s.queue[k].address && e.validIp && e.validName
    ensures Consistent(q0, State(s.queue[k := e], if s.queue[k].validName then s.log else s.log + [Added(e)]))
  {
    forall ip: nat
      ensures var log := if s.queue[k].validName then s.log else s.log + [Added(e)];
              && Alternates(HasName(q0, ip), log, ip)
              && Live(HasName(q0, ip), log, ip) == HasName(s.queue[k := e], ip)
    {
      LiveSnoc(HasName(q0, ip), s.log, Added(e), ip);
      HasNameUpdate(s.queue, k, e, ip);
      HasNameUpdate(s.queue, k, s.queue[k], ip);
      assert s.queue[k := s.queue[k]] == s.queue;
    }
  }

  lemma NbKeepsConsistent(q0: seq<Entry>, s: State, ip: nat, now: int, limit: int)
    requires Consistent(q0, s)
    ensures Consistent(q0, Apply(s, NbReply(ip, now), limit))
  {
    var k := Find(s.queue, ip);
    var q' := Apply(s, NbReply(ip, now), limit).queue;
    forall a: nat
      ensures HasName(q', a) == HasName(s.queue, a)
    {
      if k < |s.queue| {
        HasNameUpdate(s.queue, k, Seen(s.queue[k], now), a);
        HasNameUpdate(s.queue, k, s.queue[k], a);
        assert s.queue[k := s.queue[k]] == s.queue;
      } else {
        assert forall i :: 0 <= i < |s.queue| ==> q'[i + 1] == s.queue[i];
      }
    }
  }

  /** A sweep that has got to index `i` has dropped the expired entries before it, one by one. */
  lemma {:induction false} SweepKeepsConsistent(q0: seq<Entry>, s: State, now: int, limit: int, i: nat)
    requires Consistent(q0, s) && i <= |s.queue|
    ensures Consistent(q0, State(Kept(s.queue[..i], now, limit) + s.queue[i..],
                                 s.log + Evicted(s.queue[..i], now, limit)))
  {
    hide Consistent;
    if i == 0 {
      assert [] + s.queue[0..] == s.queue && s.log + [] == s.log;
    } else {
      var q, e := s.queue[..i - 1], s.queue[i - 1];
      SweepKeepsConsistent(q0, s, now, limit, i - 1);
      assert s.queue[..i][..i - 1] == q;
      var kept := Kept(q, now, limit);
      var mid := State(kept + s.queue[i - 1..], s.log + Evicted(q, now, limit));
      assert mid.queue[|kept|] == e;
      assert mid.queue[..|kept|] == kept && mid.queue[|kept| + 1..] == s.queue[i..];
      if Expired(e, now, limit) {
        RemovalKeepsConsistent(q0, mid, |kept|);
        assert mid.log + [Removed(e)] == s.log + (Evicted(q, now, limit) + [Removed(e)]);
        assert kept + [] == kept;
      } else {
        assert mid.queue == (kept + [e]) + s.queue[i..];
      }
      assert Evicted(q, now, limit) + [] == Evicted(q, now, limit);
    }
  }

  lemma StepKeepsConsistent(q0: seq<Entry>, s: State, step: Step, limit: int)
    requires Consistent(q0, s)
    ensures Consistent(q0, Apply(s, step, limit))
  {
    match step
    case Sweep(now) =>
      SweepKeepsConsistent(q0, s, now, limit, |s.queue|);
      assert s.queue[..|s.queue|] == s.queue;
      assert Kept(s.queue, now, limit) + s.queue[|s.queue|..] == Kept(s.queue, now, limit);
    case NbReply(ip, now) => NbKeepsConsistent(q0, s, ip, now, limit);
    case NbstatReply(ip, now, name, group) =>
      var k := Find(s.queue, ip);
      if k < |s.queue| {
        NamingKeepsConsistent(q0, s, k, Named(Seen(s.queue[k], now), name, group));
      }
  }

  /**
   Whatever was in the cache to begin with, at every point of every run no address is in the queue
   twice, each address's callbacks alternate, and the live addresses are exactly the named entries.
   */
  lemma {:induction false} RunIsConsistent(q0: seq<Entry>, steps: seq<Step>, limit: int)
    requires Distinct(q0)
    ensures Consistent(q0, Run(State(q0, []), steps, limit))
  {
    if steps != [] {
      RunIsConsistent(q0, steps[..|steps| - 1], limit);
      StepKeepsConsistent(q0, Run(State(q0, []), steps[..|steps| - 1], limit), steps[|steps| - 1], limit);
    }
  }

  lemma {:induction false} AlternationByParity(before: bool, log: seq<Event>, ip: nat)
    requires Alternates(before, log, ip)
    ensures forall k :: 0 <= k < |About(log, ip)| ==> (About(log, ip)[k].Added? <==> (k % 2 == 0) != before)
    ensures Live(before, log, ip) == ((|About(log, ip)| % 2 == 0) == before)
  {
    if log != [] {
      AlternationByParity(before, log[..|log| - 1], ip);
    }
  }

  /** Added, removed, added, and so on for each address; named entries are the unmatched additions. */
  ghost predicate WellReported(s: State)
  {
    && Distinct(s.queue)
    && (forall ip: nat, k :: 0 <= k < |About(s.log, ip)| ==> (About(s.log, ip)[k].Added? <==> k % 2 == 0))
    && (forall ip: nat :: |About(s.log, ip)| % 2 == 1 <==> HasName(s.queue, ip))
  }

  /** Discovery that starts from an empty cache. */
  lemma CallbacksAlternate(steps: seq<Step>, limit: int)
    ensures WellReported(Run(State([], []), steps, limit))
  {
    var s := Run(State([], []), steps, limit);
    RunIsConsistent([], steps, limit);
    forall ip: nat
      ensures forall k :: 0 <= k < |About(s.log, ip)| ==> (About(s.log, ip)[k].Added? <==> k % 2 == 0)
      ensures |About(s.log, ip)| % 2 == 1 <==> HasName(s.queue, ip)
    {
      assert !HasName([], ip);
      AlternationByParity(false, s.log, ip);
    }
  }

  /**
   The first callback about an address is an addition exactly if the cache did not hold it under a
   name when discovery started, as `netbios_ns_inverse` may have left it.
   */
  lemma FirstCallback(q0: seq<Entry>, steps: seq<Step>, limit: int, ip: nat)
    requires Distinct(q0)
    ensures var seen := About(Run(State(q0, []), steps, limit).log, ip);
            seen != [] ==> (seen[0].Added? <==> !HasName(q0, ip))
  {
    RunIsConsistent(q0, steps, limit);
    AlternationByParity(HasName(q0, ip), Run(State(q0, []), steps, limit).log, ip);
  }

  /** With such an entry the first callback of a run can indeed be a removal. */
  lemma RemovalWithoutAddition(e: Entry, limit: int)
    requires e.validIp && e.validName
    ensures var s := Run(State([e], []), [Sweep(e.lastSeen + limit + 1)], limit);
            s.log == [Removed(e)] && s.queue == []
  {
    var now := e.lastSeen + limit + 1;
    var s := State([e], []);
    SweepOne(e, now, limit);
    assert [Sweep(now)][..0] == [];
    assert Run(s, [], limit) == s;
    assert Run(s, [Sweep(now)], limit) == Apply(s, Sweep(now), limit);
  }

  lemma SweepOne(e: Entry, now: int, limit: int)
    requires Expired(e, now, limit) && e.validName
    ensures Kept([e], now, limit) == [] && Evicted([e], now, limit) == [Removed(e)]
  {
    assert [e][..0] == [];
    assert Kept([], now, limit) == [] && Evicted([], now, limit) == [];
  }
}
