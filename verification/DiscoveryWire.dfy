/** Discovery from the datagrams that arrive to the callbacks the user sees. */
module DiscoveryWire {
  import opened Discovery
  import opened DiscoveryHosts
  import opened DiscoveryModel
  import opened Options
  import NameReply

  const NOTHING := State([], [])

  /** All that discovery does from an empty cache, for a given course of the outside world. */
  function Course(turns: seq<Turn>, timeout: nat): seq<Step>
  {
    Steps(NOTHING, EMPTY_BUFFER, turns, timeout)
  }

  /** What arrives from the socket, in order. */
  function Arrivals(turns: seq<Turn>): seq<Packet>
  {
    if turns == [] then [] else turns[0].packets + Arrivals(turns[1..])
  }

  /** A datagram, in front of whatever is left in the buffer behind it, causes a step. */
  predicate Causes(b: Buffer, p: Packet, step: Step)
  {
    p.Datagram? && Stored(p.octets) <= b && StepOf(Interpret(b, p)) == [step]
  }

  ghost predicate CausedBy(packets: seq<Packet>, n: nat, step: Step)
  {
    n < |packets| && exists b: Buffer :: Causes(b, packets[n], step)
  }

  lemma CausedLater(before: seq<Packet>, packets: seq<Packet>, n: nat, step: Step)
    requires CausedBy(packets, n, step)
    ensures CausedBy(before + packets, |before| + n, step)
  {
    hide Causes;
    assert (before + packets)[|before| + n] == packets[n];
  }

  lemma CausedEarlier(packets: seq<Packet>, behind: seq<Packet>, n: nat, step: Step)
    requires CausedBy(packets, n, step)
    ensures CausedBy(packets + behind, n, step)
  {
    hide Causes;
    assert (packets + behind)[n] == packets[n];
  }

  lemma ReplyCaused(b: Buffer, packets: seq<Packet>, step: Step)
    requires packets != [] && step in StepOf(Interpret(Filled(b, packets[0]), packets[0]))
    ensures CausedBy(packets, 0, step)
  {
    hide NameReply.Parse;
    var p := packets[0];
    assert p.Datagram?;
    var b', data := Filled(b, p), Stored(p.octets);
    assert b'[0..0 + |data|] == data;
    assert Causes(b', p, step);
  }

  /** Two of several steps have two of several packets for causes, in the same order. */
  ghost predicate InOrder(packets: seq<Packet>, first: Step, second: Step)
  {
    exists m, n :: 0 <= m < n && CausedBy(packets, m, first) && CausedBy(packets, n, second)
  }

  lemma {:induction false} ListenCaused(s: State, b: Buffer, packets: seq<Packet>, limit: int, i: nat)
    requires i < |Listen(s, b, packets, limit).steps|
    ensures exists n :: CausedBy(packets, n, Listen(s, b, packets, limit).steps[i])
    decreases |packets|
  {
    hide Run, OutcomeOf, Interpret, Filled, CausedBy, StepOf;
    var b' := Filled(b, packets[0]);
    var reply := Interpret(b', packets[0]);
    var step, own := Listen(s, b, packets, limit).steps[i], StepOf(reply);
    OneStep(reply);
    if i < |own| {
      ReplyCaused(b, packets, step);
    } else {
      ListenCaused(Run(s, own, limit), b', packets[1..], limit, i - |own|);
      var n :| CausedBy(packets[1..], n, step);
      CausedLater(packets[..1], packets[1..], n, step);
      assert packets[..1] + packets[1..] == packets;
    }
  }

  lemma OneStep(reply: Reply)
    ensures |StepOf(reply)| <= 1
  {
  }

  lemma {:induction false} ListenInOrder(s: State, b: Buffer, packets: seq<Packet>, limit: int, i: nat, j: nat)
    requires i < j < |Listen(s, b, packets, limit).steps|
    ensures var steps := Listen(s, b, packets, limit).steps;
            InOrder(packets, steps[i], steps[j])
    decreases |packets|
  {
    hide Run, OutcomeOf, Interpret, Filled, CausedBy, StepOf;
    var b' := Filled(b, packets[0]);
    var reply := Interpret(b', packets[0]);
    var steps, own := Listen(s, b, packets, limit).steps, StepOf(reply);
    var s', rest := Run(s, own, limit), packets[1..];
    OneStep(reply);
    assert packets[..1] + rest == packets;
    if i < |own| {
      ReplyCaused(b, packets, steps[i]);
      ListenCaused(s', b', rest, limit, j - |own|);
      var n :| CausedBy(rest, n, steps[j]);
      CausedLater(packets[..1], rest, n, steps[j]);
    } else {
      ListenInOrder(s', b', rest, limit, i - |own|, j - |own|);
      InOrderLater(packets[..1], rest, steps[i], steps[j]);
    }
  }

  lemma InOrderLater(before: seq<Packet>, packets: seq<Packet>, first: Step, second: Step)
    requires InOrder(packets, first, second)
    ensures InOrder(before + packets, first, second)
  {
    hide CausedBy;
    var m, n :| 0 <= m < n && CausedBy(packets, m, first) && CausedBy(packets, n, second);
    CausedLater(before, packets, m, first);
    CausedLater(before, packets, n, second);
  }

  lemma InOrderEarlier(packets: seq<Packet>, behind: seq<Packet>, first: Step, second: Step)
    requires InOrder(packets, first, second)
    ensures InOrder(packets + behind, first, second)
  {
    hide CausedBy;
    var m, n :| 0 <= m < n && CausedBy(packets, m, first) && CausedBy(packets, n, second);
    CausedEarlier(packets, behind, m, first);
    CausedEarlier(packets, behind, n, second);
  }

  /** The steps of the first turn, and of all later ones. */
  lemma StepsUnfold(s: State, b: Buffer, turns: seq<Turn>, timeout: nat)
    requires Steps(s, b, turns, timeout) != []
    ensures turns != []
    ensures var limit := RemoveTimeout(timeout);
            var heard := Listen(Apply(s, Sweep(turns[0].now), limit), b, turns[0].packets, limit);
            var own := [Sweep(turns[0].now)] + heard.steps;
            var steps := Steps(s, b, turns, timeout);
            steps == own || steps == own + Steps(Run(s, own, limit), heard.buffer, turns[1..], timeout)
  {
    hide Run, Apply, Listen;
  }

  /** Every step but the sweeps was caused by a datagram that arrived. */
  lemma {:induction false} StepsCaused(s: State, b: Buffer, turns: seq<Turn>, timeout: nat, i: nat)
    requires i < |Steps(s, b, turns, timeout)| && !Steps(s, b, turns, timeout)[i].Sweep?
    ensures exists n :: CausedBy(Arrivals(turns), n, Steps(s, b, turns, timeout)[i])
    decreases |turns|
  {
    hide Run, Apply, Listen, CausedBy, Steps;
    StepsUnfold(s, b, turns, timeout);
    var limit := RemoveTimeout(timeout);
    var swept := Apply(s, Sweep(turns[0].now), limit);
    var heard := Listen(swept, b, turns[0].packets, limit);
    var own, step := [Sweep(turns[0].now)] + heard.steps, Steps(s, b, turns, timeout)[i];
    if i < |own| {
      ListenCaused(swept, b, turns[0].packets, limit, i - 1);
      assert step == heard.steps[i - 1];
      var n :| CausedBy(turns[0].packets, n, step);
      CausedEarlier(turns[0].packets, Arrivals(turns[1..]), n, step);
      assert CausedBy(Arrivals(turns), n, step);
    } else {
      StepsCaused(Run(s, own, limit), heard.buffer, turns[1..], timeout, i - |own|);
      var n :| CausedBy(Arrivals(turns[1..]), n, step);
      CausedLater(turns[0].packets, Arrivals(turns[1..]), n, step);
      assert CausedBy(Arrivals(turns), |turns[0].packets| + n, step);
    }
  }

  /** Of two steps, the earlier one was caused by the datagram that arrived earlier. */
  lemma {:induction false} StepsInOrder(s: State, b: Buffer, turns: seq<Turn>, timeout: nat, i: nat, j: nat)
    requires i < j < |Steps(s, b, turns, timeout)|
    requires !Steps(s, b, turns, timeout)[i].Sweep? && !Steps(s, b, turns, timeout)[j].Sweep?
    ensures var steps := Steps(s, b, turns, timeout);
            InOrder(Arrivals(turns), steps[i], steps[j])
    decreases |turns|
  {
    hide Run, Apply, Listen, CausedBy, Steps;
    StepsUnfold(s, b, turns, timeout);
    var limit := RemoveTimeout(timeout);
    var swept := Apply(s, Sweep(turns[0].now), limit);
    var packets, later := turns[0].packets, Arrivals(turns[1..]);
    var heard := Listen(swept, b, packets, limit);
    var own, steps := [Sweep(turns[0].now)] + heard.steps, Steps(s, b, turns, timeout);
    if j < |own| {
      ListenInOrder(swept, b, packets, limit, i - 1, j - 1);
      InOrderEarlier(packets, later, steps[i], steps[j]);
    } else if i < |own| {
      ListenCaused(swept, b, packets, limit, i - 1);
      var m :| CausedBy(packets, m, steps[i]);
      StepsCaused(Run(s, own, limit), heard.buffer, turns[1..], timeout, j - |own|);
      var n :| CausedBy(later, n, steps[j]);
      SplitInOrder(packets, later, m, n, steps[i], steps[j]);
    } else {
      StepsInOrder(Run(s, own, limit), heard.buffer, turns[1..], timeout, i - |own|, j - |own|);
      InOrderLater(packets, later, steps[i], steps[j]);
    }
  }

  lemma SplitInOrder(a: seq<Packet>, b: seq<Packet>, m: nat, n: nat, first: Step, second: Step)
    requires CausedBy(a, m, first) && CausedBy(b, n, second)
    ensures InOrder(a + b, first, second)
  {
    assert m < |a|;
    CausedEarlier(a, b, m, first);
    CausedLater(a, b, n, second);
  }

  /** A datagram from a host that answers the broadcast. */
  predicate AnswersBroadcast(p: Packet, b: Buffer, address: nat)
  {
    && p.Datagram? && p.sender == address && Stored(p.octets) <= b
    && NameReply.Parse(b, |Stored(p.octets)|, false, 0, address) == Some(NameReply.NbFrom(address))
  }

  /** A datagram from a host that gives its names, of which an entry holds the ones selected. */
  predicate GivesNames(p: Packet, b: Buffer, e: Entry)
  {
    && p.Datagram? && p.sender == e.address && p.now == e.lastSeen && Stored(p.octets) <= b
    && var r := NameReply.Parse(b, |Stored(p.octets)|, false, 0, e.address);
       && r.Some? && r.value.NbstatNames?
       && e.name == StoredName(WireNameAt(b, r.value.name))
       && (r.value.group.Some? ==> e.group == StoredName(WireNameAt(b, r.value.group.value)))
  }

  lemma CausedByBroadcast(b: Buffer, p: Packet, step: Step)
    requires Causes(b, p, step) && step.NbReply?
    ensures AnswersBroadcast(p, b, step.ip)
  {
    hide NameReply.Accepted, NameReply.FirstWanted;
  }

  lemma CausedByNames(b: Buffer, p: Packet, step: Step, e: Entry)
    requires Causes(b, p, step) && step.NbstatReply? && step.ip == e.address && step.now == e.lastSeen
    requires e.name == StoredName(step.name) && (step.group.Some? ==> e.group == StoredName(step.group.value))
    ensures GivesNames(p, b, e)
  {
    hide NameReply.Parse, StoredName;
  }

  /** A host answered the broadcast, and later gave the names under which it is announced. */
  ghost predicate Introduced(packets: seq<Packet>, e: Entry)
  {
    exists m, n :: 0 <= m < n < |packets| && Answers(packets[m], e) && Introduces(packets[n], e)
  }

  ghost predicate Answers(p: Packet, e: Entry)
  {
    exists b: Buffer :: AnswersBroadcast(p, b, e.address)
  }

  ghost predicate Introduces(p: Packet, e: Entry)
  {
    exists b: Buffer :: GivesNames(p, b, e)
  }

  /**
   No host is announced that did not first answer the broadcast and then give the name it is
   announced under, each in a datagram that arrived.
   */
  lemma AnnouncedFromTheWire(turns: seq<Turn>, timeout: nat, e: Entry)
    requires Added(e) in Run(NOTHING, Course(turns, timeout), RemoveTimeout(timeout)).log
    ensures Introduced(Arrivals(turns), e)
  {
    hide Run, Steps, Causes, AnswersBroadcast, GivesNames, Arrivals;
    var steps, packets := Course(turns, timeout), Arrivals(turns);
    CallbacksExplained(steps, RemoveTimeout(timeout), Added(e));
    assert Announced(steps, e);
    var i, j :| 0 <= i < j < |steps| && Announces(steps[i], steps[j], e);
    StepsInOrder(NOTHING, EMPTY_BUFFER, turns, timeout, i, j);
    var m, n :| 0 <= m < n && CausedBy(packets, m, steps[i]) && CausedBy(packets, n, steps[j]);
    var b: Buffer :| Causes(b, packets[m], steps[i]);
    CausedByBroadcast(b, packets[m], steps[i]);
    var c: Buffer :| Causes(c, packets[n], steps[j]);
    CausedByNames(c, packets[n], steps[j], e);
  }

  /** A fresh service, run for any course of the outside world, does what the model says and reports consistently. */
  method Discover(timeout: nat, turns: seq<Turn>) returns (ns: NameService)
    ensures ns.Valid() && WellReported(ns.Contents())
    ensures ns.Contents() == Run(NOTHING, Course(turns, timeout), RemoveTimeout(timeout))
  {
    hide Run, Steps, WellReported;
    ns := new NameService(timeout);
    CallbacksAlternate(Course(turns, timeout), ns.Limit());
    ns.DiscoverThread(turns);
  }
}
