/**
 That discovery goes on and misses nothing: what the thread does, told by the turns and datagrams
 alone, without its loops and without what ends them.
 */
module DiscoveryTimeline {
  import opened Bytes
  import opened Discovery
  import opened DiscoveryHosts
  import opened DiscoveryModel
  import opened DiscoveryWire
  import opened Options
  import NameReply

  // --- the timeline ---------------------------------------------------------------------------------

  /** What arrives in a broadcast period before it goes by without a datagram. */
  function Heard(packets: seq<Packet>): (r: seq<Packet>)
    ensures |r| <= |packets| && r == packets[..|r|]
    ensures forall i :: 0 <= i < |r| ==> !r[i].Quiet?
    ensures |r| < |packets| ==> packets[|r|].Quiet?
  {
    if packets == [] || packets[0].Quiet? then [] else [packets[0]] + Heard(packets[1..])
  }

  /** The receive buffer with the octets of a datagram at its front, as far as they fit. */
  function Received(b: Buffer, octets: seq<byte>): (r: Buffer)
    ensures forall i :: 0 <= i < |r| ==> r[i] == if i < |octets| then octets[i] else b[i]
  {
    seq(NameReply.BUFFER_SIZE, i requires 0 <= i < NameReply.BUFFER_SIZE => if i < |octets| then octets[i] else b[i])
  }

  function Size(octets: seq<byte>): nat
  {
    if |octets| < NameReply.BUFFER_SIZE then |octets| else NameReply.BUFFER_SIZE
  }

  function BufferAfter(b: Buffer, packets: seq<Packet>): Buffer
  {
    if packets == [] then b
    else
      var p, before := packets[|packets| - 1], BufferAfter(b, packets[..|packets| - 1]);
      if p.Datagram? then Received(before, p.octets) else before
  }

  function Octets15(b: Buffer, at: nat): (r: WireName)
    requires at + 15 <= |b|
  {
    seq(15, i requires 0 <= i < 15 => b[at + i])
  }

  /** The step a datagram stands for, with the buffer that holds it: an answer of its sender, or none. */
  function AnswerStep(b: Buffer, p: Packet): seq<Step>
  {
    if !p.Datagram? then []
    else match NameReply.Parse(b, Size(p.octets), false, 0, p.sender)
      case Some(NbFrom(_)) => [NbReply(p.sender, p.now)]
      case Some(NbstatNames(name, group)) =>
        [NbstatReply(p.sender, p.now, Octets15(b, name), if group.Some? then Some(Octets15(b, group.value)) else None)]
      case _ => []
  }

  /** The answers among packets, in order. */
  function Answers(b: Buffer, packets: seq<Packet>): seq<Step>
  {
    if packets == [] then []
    else Answers(b, packets[..|packets| - 1]) + AnswerStep(BufferAfter(b, packets), packets[|packets| - 1])
  }

  /** A sweep for every turn, and behind it every answer heard in the turn. */
  function Timeline(b: Buffer, turns: seq<Turn>): seq<Step>
    decreases |turns|
  {
    if turns == [] then []
    else
      var heard := Heard(turns[0].packets);
      [Sweep(turns[0].now)] + Answers(b, heard) + Timeline(BufferAfter(b, heard), turns[1..])
  }

  /** Nothing arrives that ends the thread: no failure, and every query it has to send can be sent. */
  predicate Harmless(packets: seq<Packet>)
  {
    forall p :: p in packets ==> !p.Broken? && (p.Datagram? ==> p.queryOk)
  }

  predicate Undisturbed(turns: seq<Turn>)
  {
    forall t :: 0 <= t < |turns| ==> !turns[t].aborted && Harmless(Heard(turns[t].packets))
  }

  // --- the thread follows it ------------------------------------------------------------------------

  lemma FilledIsReceived(b: Buffer, p: Packet)
    ensures Filled(b, p) == if p.Datagram? then Received(b, p.octets) else b
  {
    if p.Datagram? {
      var f, r, data := Filled(b, p), Received(b, p.octets), Stored(p.octets);
      assert f[0..0 + |data|] == data && f[0 + |data|..] == b[0 + |data|..];
      forall i | 0 <= i < |r| ensures f[i] == r[i] {
        if i < |data| { assert f[i] == f[0..0 + |data|][i]; } else { assert f[i] == f[0 + |data|..][i - |data|]; }
      }
    }
  }

  lemma StepIsAnswer(b: Buffer, p: Packet)
    ensures StepOf(Interpret(b, p)) == AnswerStep(b, p)
  {
    hide NameReply.Parse, WireNameAt, Octets15;
    if p.Datagram? {
      var r := NameReply.Parse(b, Size(p.octets), false, 0, p.sender);
      SenderIsAnswerer(b, Size(p.octets), p.sender);
      if r.Some? && r.value.NbstatNames? {
        SameOctets(b, r.value.name);
        if r.value.group.Some? { SameOctets(b, r.value.group.value); }
      }
    }
  }

  lemma SameOctets(b: Buffer, at: nat)
    requires at + 15 <= |b|
    ensures WireNameAt(b, at) == Octets15(b, at)
  {
  }

  lemma SenderIsAnswerer(b: Buffer, size: nat, ip: nat)
    requires size <= NameReply.BUFFER_SIZE
    ensures var r := NameReply.Parse(b, size, false, 0, ip);
            r.Some? && r.value.NbFrom? ==> r.value.ip == ip
  {
    hide NameReply.Accepted;
  }

  lemma BufferSplit(b: Buffer, p: Packet, packets: seq<Packet>)
    ensures BufferAfter(b, [p] + packets) == BufferAfter(Filled(b, p), packets)
    decreases |packets|
  {
    hide Filled;
    FilledIsReceived(b, p);
    var all := [p] + packets;
    if packets == [] {
      assert all[..|all| - 1] == [];
    } else {
      BufferSplit(b, p, packets[..|packets| - 1]);
      assert all[..|all| - 1] == [p] + packets[..|packets| - 1];
    }
  }

  lemma {:induction false} AnswersSplit(b: Buffer, p: Packet, packets: seq<Packet>)
    ensures Answers(b, [p] + packets) == AnswerStep(Filled(b, p), p) + Answers(Filled(b, p), packets)
    decreases |packets|
  {
    hide Filled, AnswerStep, BufferAfter;
    var all := [p] + packets;
    BufferSplit(b, p, packets);
    if packets == [] {
      assert all[..|all| - 1] == [] && Answers(b, []) == [];
      BufferNone(Filled(b, p));
    } else {
      AnswersSplit(b, p, packets[..|packets| - 1]);
      assert all[..|all| - 1] == [p] + packets[..|packets| - 1];
    }
  }

  lemma BufferNone(b: Buffer)
    ensures BufferAfter(b, []) == b
  {
  }

  lemma GoesOn(s: State, p: Packet, b: Buffer)
    requires !p.Broken? && !p.Quiet? && (p.Datagram? ==> p.queryOk)
    ensures OutcomeOf(s, Interpret(b, p)) == GoOn
  {
    hide NameReply.Parse;
  }

  lemma NothingHeard(s: State, b: Buffer, more: seq<Packet>, limit: int)
    ensures Answers(b, []) == [] && BufferAfter(b, []) == b
    ensures var rest := Listen(s, b, more, limit);
            rest.(steps := [] + rest.steps) == rest
  {
    hide Listen;
  }

  lemma ListenOne(s: State, b: Buffer, packets: seq<Packet>, limit: int)
    requires packets != [] && !packets[0].Broken? && !packets[0].Quiet? && (packets[0].Datagram? ==> packets[0].queryOk)
    ensures var own := AnswerStep(Filled(b, packets[0]), packets[0]);
            var rest := Listen(Run(s, own, limit), Filled(b, packets[0]), packets[1..], limit);
            Listen(s, b, packets, limit) == rest.(steps := own + rest.steps)
  {
    hide Run, Filled, Interpret, StepOf, OutcomeOf, AnswerStep;
    var b' := Filled(b, packets[0]);
    StepIsAnswer(b', packets[0]);
    GoesOn(Run(s, AnswerStep(b', packets[0]), limit), packets[0], b');
  }

  /** The inner loop takes a step for every answer among packets that do not end it, whatever follows them. */
  lemma {:induction false} ListenGoesOn(s: State, b: Buffer, packets: seq<Packet>, more: seq<Packet>, limit: int)
    requires Harmless(packets) && forall p :: p in packets ==> !p.Quiet?
    ensures var answers := Answers(b, packets);
            var rest := Listen(Run(s, answers, limit), BufferAfter(b, packets), more, limit);
            Listen(s, b, packets + more, limit) == rest.(steps := answers + rest.steps)
    decreases |packets|
  {
    hide Run, Filled, Interpret, StepOf, OutcomeOf, AnswerStep, Listen, Answers, BufferAfter;
    if packets == [] {
      assert packets + more == more;
      RunNothing(s, limit);
      NothingHeard(s, b, more, limit);
    } else {
      var p, tail, b' := packets[0], packets[1..], Filled(b, packets[0]);
      var own := AnswerStep(b', p);
      assert p in packets;
      ListenOne(s, b, packets + more, limit);
      assert forall q :: q in tail ==> q in packets;
      ListenGoesOn(Run(s, own, limit), b', tail, more, limit);
      assert (packets + more)[1..] == tail + more && [p] + tail == packets;
      AnswersSplit(b, p, tail);
      BufferSplit(b, p, tail);
      RunConcat(s, own, Answers(b', tail), limit);
      var rest := Listen(Run(s, Answers(b, packets), limit), BufferAfter(b, packets), more, limit);
      assert own + (Answers(b', tail) + rest.steps) == Answers(b, packets) + rest.steps;
    }
  }

  /** A period without failures ends with a timeout, or with the input, and every answer before that has its step. */
  lemma ListenIsAnswers(s: State, b: Buffer, packets: seq<Packet>, limit: int)
    requires Harmless(Heard(packets))
    ensures Listen(s, b, packets, limit) == Listening(Answers(b, Heard(packets)), false, BufferAfter(b, Heard(packets)))
  {
    hide Run, Answers, BufferAfter, Heard;
    var heard := Heard(packets);
    var more := packets[|heard|..];
    assert packets == heard + more;
    ListenGoesOn(s, b, heard, more, limit);
    ListenQuiet(Run(s, Answers(b, heard), limit), BufferAfter(b, heard), more, limit);
    assert Answers(b, heard) + [] == Answers(b, heard);
  }

  lemma ListenQuiet(s: State, b: Buffer, packets: seq<Packet>, limit: int)
    requires packets != [] ==> packets[0].Quiet?
    ensures Listen(s, b, packets, limit) == Listening([], false, b)
  {
  }

  /**
   The thread goes on, turn after turn: without an abort, a failure or a query that cannot be sent,
   its steps are a sweep for every turn at the turn's time, each followed by all answers heard in it.
   */
  lemma {:induction false} StepsAreTimeline(s: State, b: Buffer, turns: seq<Turn>, timeout: nat)
    requires timeout > 0 && Undisturbed(turns)
    ensures Steps(s, b, turns, timeout) == Timeline(b, turns)
    decreases |turns|
  {
    hide Run, Apply, Listen, Answers, BufferAfter, Heard, Harmless;
    if turns != [] {
      var limit := RemoveTimeout(timeout);
      var swept := Apply(s, Sweep(turns[0].now), limit);
      ListenIsAnswers(swept, b, turns[0].packets, limit);
      var heard := Heard(turns[0].packets);
      var steps := [Sweep(turns[0].now)] + Answers(b, heard);
      StepsAreTimeline(Run(s, steps, limit), BufferAfter(b, heard), turns[1..], timeout);
    }
  }

  // --- how it ends otherwise ------------------------------------------------------------------------

  /** Undisturbed turns are followed by whatever the thread does from there. */
  lemma {:induction false} StepsAfterTurns(s: State, b: Buffer, turns: seq<Turn>, more: seq<Turn>, timeout: nat)
    requires timeout > 0 && Undisturbed(turns)
    ensures var limit := RemoveTimeout(timeout);
            var rest := Steps(Run(s, Timeline(b, turns), limit), BufferAt(b, turns), more, timeout);
            Steps(s, b, turns + more, timeout) == Timeline(b, turns) + rest
    decreases |turns|
  {
    hide Run, Apply, Listen, Answers, BufferAfter, Heard, Harmless;
    var limit := RemoveTimeout(timeout);
    if turns == [] {
      assert turns + more == more;
      RunNothing(s, limit);
    } else {
      var swept := Apply(s, Sweep(turns[0].now), limit);
      ListenIsAnswers(swept, b, turns[0].packets, limit);
      var heard := Heard(turns[0].packets);
      var own, b' := [Sweep(turns[0].now)] + Answers(b, heard), BufferAfter(b, heard);
      var s' := Run(s, own, limit);
      StepsAfterTurns(s', b', turns[1..], more, timeout);
      assert (turns + more)[0] == turns[0] && (turns + more)[1..] == turns[1..] + more;
      RunConcat(s, own, Timeline(b', turns[1..]), limit);
      var rest := Steps(Run(s, Timeline(b, turns), limit), BufferAt(b, turns), more, timeout);
      assert own + (Timeline(b', turns[1..]) + rest) == (own + Timeline(b', turns[1..])) + rest;
    }
  }

  /** The receive buffer after some turns. */
  function BufferAt(b: Buffer, turns: seq<Turn>): Buffer
    decreases |turns|
  {
    if turns == [] then b else BufferAt(BufferAfter(b, Heard(turns[0].packets)), turns[1..])
  }

  /** An abort ends the thread before the sweep of its turn. */
  lemma AbortEnds(s: State, b: Buffer, turns: seq<Turn>, last: Turn, more: seq<Turn>, timeout: nat)
    requires timeout > 0 && Undisturbed(turns) && last.aborted
    ensures Steps(s, b, turns + ([last] + more), timeout) == Timeline(b, turns)
  {
    hide Run, Timeline, BufferAt, Listen;
    StepsAfterTurns(s, b, turns, [last] + more, timeout);
    assert Timeline(b, turns) + [] == Timeline(b, turns);
  }

  /** A failure to receive ends it behind the answers heard before. */
  lemma FailureEnds(s: State, b: Buffer, turns: seq<Turn>, last: Turn, heard: seq<Packet>, rest: seq<Packet>, more: seq<Turn>, timeout: nat)
    requires timeout > 0 && Undisturbed(turns) && !last.aborted && last.packets == heard + ([Broken] + rest)
    requires Harmless(heard) && forall p :: p in heard ==> !p.Quiet?
    ensures Steps(s, b, turns + ([last] + more), timeout)
         == Timeline(b, turns) + ([Sweep(last.now)] + Answers(BufferAt(b, turns), heard))
  {
    hide Run, Timeline, BufferAt, Listen, Apply, Answers, BufferAfter;
    var limit, b' := RemoveTimeout(timeout), BufferAt(b, turns);
    var s' := Run(s, Timeline(b, turns), limit);
    var swept := Apply(s', Sweep(last.now), limit);
    StepsAfterTurns(s, b, turns, [last] + more, timeout);
    ListenGoesOn(swept, b', heard, [Broken] + rest, limit);
    ListenBroken(Run(swept, Answers(b', heard), limit), BufferAfter(b', heard), rest, limit);
    assert Answers(b', heard) + [] == Answers(b', heard);
  }

  lemma ListenBroken(s: State, b: Buffer, rest: seq<Packet>, limit: int)
    ensures Listen(s, b, [Broken] + rest, limit).steps == [] && Listen(s, b, [Broken] + rest, limit).returned
  {
    RunNothing(s, limit);
  }

  /** A host still without a name whose query cannot be sent ends it right behind that host's answer. */
  lemma UnsentQueryEnds(s: State, b: Buffer, turns: seq<Turn>, last: Turn, heard: seq<Packet>, p: Packet, rest: seq<Packet>,
                        more: seq<Turn>, timeout: nat)
    requires timeout > 0 && Undisturbed(turns) && !last.aborted && last.packets == heard + ([p] + rest)
    requires Harmless(heard) && forall q :: q in heard ==> !q.Quiet?
    requires p.Datagram? && !p.queryOk
    requires AnswerStep(Filled(BufferAfter(BufferAt(b, turns), heard), p), p) == [NbReply(p.sender, p.now)]
    requires var steps := Timeline(b, turns) + ([Sweep(last.now)] + (Answers(BufferAt(b, turns), heard) + [NbReply(p.sender, p.now)]));
             var e := Lookup(Run(s, steps, RemoveTimeout(timeout)).queue, p.sender);
             e.Some? && !e.value.validName
    ensures Steps(s, b, turns + ([last] + more), timeout)
         == Timeline(b, turns) + ([Sweep(last.now)] + (Answers(BufferAt(b, turns), heard) + [NbReply(p.sender, p.now)]))
  {
    hide Run, Timeline, BufferAt, Listen, Apply, Answers, BufferAfter, AnswerStep, Filled;
    var limit, b' := RemoveTimeout(timeout), BufferAt(b, turns);
    var s' := Run(s, Timeline(b, turns), limit);
    var swept, answers := Apply(s', Sweep(last.now), limit), Answers(b', heard);
    StepsAfterTurns(s, b, turns, [last] + more, timeout);
    ListenGoesOn(swept, b', heard, [p] + rest, limit);
    var answer := [NbReply(p.sender, p.now)];
    RunConcat(s, Timeline(b, turns), [Sweep(last.now)] + (answers + answer), limit);
    RunFirst(s', Sweep(last.now), answers + answer, limit);
    RunConcat(swept, answers, answer, limit);
    ListenUnsent(Run(swept, answers, limit), BufferAfter(b', heard), p, rest, limit);
  }

  lemma ListenUnsent(s: State, b: Buffer, p: Packet, rest: seq<Packet>, limit: int)
    requires p.Datagram? && !p.queryOk && AnswerStep(Filled(b, p), p) == [NbReply(p.sender, p.now)]
    requires var e := Lookup(Run(s, [NbReply(p.sender, p.now)], limit).queue, p.sender);
             e.Some? && !e.value.validName
    ensures var heard := Listen(s, b, [p] + rest, limit);
            heard.steps == [NbReply(p.sender, p.now)] && heard.returned
  {
    hide Run, Filled, AnswerStep, NameReply.Parse, Find;
    StepIsAnswer(Filled(b, p), p);
  }

  /** Without a broadcast period there is one turn. */
  lemma OneTurnWithoutPeriod(s: State, b: Buffer, turn: Turn, more: seq<Turn>)
    requires Undisturbed([turn])
    ensures Steps(s, b, [turn] + more, 0) == Timeline(b, [turn])
  {
    hide Run, Apply, Listen, Answers, BufferAfter, Heard;
    assert [turn][0] == turn;
    ListenIsAnswers(Apply(s, Sweep(turn.now), RemoveTimeout(0)), b, turn.packets, RemoveTimeout(0));
    assert [turn][1..] == [] && Timeline(BufferAfter(b, Heard(turn.packets)), []) == [];
  }

  // --- every turn and every answer ------------------------------------------------------------------

  function SweepTimes(steps: seq<Step>): seq<int>
  {
    if steps == [] then []
    else SweepTimes(steps[..|steps| - 1]) + (if steps[|steps| - 1].Sweep? then [steps[|steps| - 1].now] else [])
  }

  function Times(turns: seq<Turn>): seq<int>
  {
    seq(|turns|, i requires 0 <= i < |turns| => turns[i].now)
  }

  lemma {:induction false} SweepTimesConcat(a: seq<Step>, b: seq<Step>)
    ensures SweepTimes(a + b) == SweepTimes(a) + SweepTimes(b)
    decreases |b|
  {
    if b == [] {
      assert a + b == a;
    } else {
      SweepTimesConcat(a, b[..|b| - 1]);
      assert (a + b)[..|a + b| - 1] == a + b[..|b| - 1];
    }
  }

  lemma {:induction false} AnswersDoNotSweep(b: Buffer, packets: seq<Packet>)
    ensures forall step :: step in Answers(b, packets) ==> !step.Sweep?
    ensures SweepTimes(Answers(b, packets)) == []
  {
    hide BufferAfter;
    if packets != [] {
      AnswersDoNotSweep(b, packets[..|packets| - 1]);
      var own := AnswerStep(BufferAfter(b, packets), packets[|packets| - 1]);
      OneAnswer(BufferAfter(b, packets), packets[|packets| - 1]);
      SweepTimesConcat(Answers(b, packets[..|packets| - 1]), own);
      if own != [] { assert own[..0] == []; }
    }
  }

  lemma OneAnswer(b: Buffer, p: Packet)
    ensures |AnswerStep(b, p)| <= 1 && forall step :: step in AnswerStep(b, p) ==> !step.Sweep?
  {
    hide NameReply.Parse;
  }

  /** One sweep per turn, at the turns' times, in order. */
  lemma {:induction false} OneSweepPerTurn(b: Buffer, turns: seq<Turn>)
    ensures SweepTimes(Timeline(b, turns)) == Times(turns)
    decreases |turns|
  {
    hide Answers, BufferAfter, Heard;
    if turns != [] {
      var heard := Heard(turns[0].packets);
      var own, later := Answers(b, heard), Timeline(BufferAfter(b, heard), turns[1..]);
      OneSweepPerTurn(BufferAfter(b, heard), turns[1..]);
      AnswersDoNotSweep(b, heard);
      SweepTimesConcat([Sweep(turns[0].now)] + own, later);
      SweepTimesConcat([Sweep(turns[0].now)], own);
      assert [Sweep(turns[0].now)][..0] == [];
      assert SweepTimes([Sweep(turns[0].now)]) == [turns[0].now];
      assert Times(turns) == [turns[0].now] + Times(turns[1..]);
    }
  }

  /** What precedes the answer in packet `j` of turn `t`. */
  function Before(b: Buffer, turns: seq<Turn>, t: nat, j: nat): seq<Step>
    requires t < |turns| && j <= |Heard(turns[t].packets)|
  {
    Timeline(b, turns[..t]) + ([Sweep(turns[t].now)] + Answers(BufferAt(b, turns[..t]), Heard(turns[t].packets)[..j]))
  }

  /** The buffer that holds packet `j` of turn `t`. */
  function Holding(b: Buffer, turns: seq<Turn>, t: nat, j: nat): Buffer
    requires t < |turns| && j < |Heard(turns[t].packets)|
  {
    BufferAfter(BufferAt(b, turns[..t]), Heard(turns[t].packets)[..j + 1])
  }

  lemma {:induction false} TimelineSplits(b: Buffer, turns: seq<Turn>, t: nat)
    requires t <= |turns|
    ensures Timeline(b, turns) == Timeline(b, turns[..t]) + Timeline(BufferAt(b, turns[..t]), turns[t..])
    decreases t
  {
    hide Answers, BufferAfter, Heard;
    if t == 0 {
      assert turns[..0] == [] && turns[0..] == turns;
    } else {
      var heard := Heard(turns[0].packets);
      var b' := BufferAfter(b, heard);
      TimelineSplits(b', turns[1..], t - 1);
      assert turns[..t][1..] == turns[1..][..t - 1] && turns[1..][t - 1..] == turns[t..];
      assert turns[..t][0] == turns[0];
    }
  }

  lemma {:induction false} AnswersPrefix(b: Buffer, packets: seq<Packet>, j: nat)
    requires j <= |packets|
    ensures Answers(b, packets[..j]) <= Answers(b, packets)
    decreases |packets|
  {
    hide AnswerStep, BufferAfter;
    if j == |packets| {
      assert packets[..j] == packets;
    } else {
      AnswersPrefix(b, packets[..|packets| - 1], j);
      assert packets[..|packets| - 1][..j] == packets[..j];
    }
  }

  lemma AnswersUpTo(b: Buffer, packets: seq<Packet>, j: nat)
    requires j < |packets|
    ensures Answers(b, packets[..j + 1]) == Answers(b, packets[..j]) + AnswerStep(BufferAfter(b, packets[..j + 1]), packets[j])
  {
    assert packets[..j + 1][..j] == packets[..j];
  }

  /** Every datagram heard in a turn that is an answer has its step, right behind the steps of those before it. */
  lemma AnswerHasStep(b: Buffer, turns: seq<Turn>, t: nat, j: nat)
    requires t < |turns| && j < |Heard(turns[t].packets)|
    ensures Before(b, turns, t, j) + AnswerStep(Holding(b, turns, t, j), turns[t].packets[j]) <= Timeline(b, turns)
  {
    hide Answers, BufferAfter, AnswerStep, Heard;
    var b', heard := BufferAt(b, turns[..t]), Heard(turns[t].packets);
    TimelineSplits(b, turns, t);
    AnswersUpTo(b', heard, j);
    AnswersPrefix(b', heard, j + 1);
    assert turns[t..][0] == turns[t];
    var rest := Timeline(BufferAfter(b', heard), turns[t..][1..]);
    assert Timeline(b', turns[t..]) == [Sweep(turns[t].now)] + Answers(b', heard) + rest;
    assert Answers(b', heard[..j]) + AnswerStep(Holding(b, turns, t, j), heard[j]) <= Answers(b', heard);
    assert turns[t].packets[j] == heard[j];
  }

  // --- a host that answers is announced -------------------------------------------------------------

  /** Packet `i` of turn `t` is an answer of a host to the broadcast. */
  predicate AnswersNb(turns: seq<Turn>, t: nat, i: nat, ip: nat)
    requires t < |turns| && i < |Heard(turns[t].packets)|
  {
    var steps := AnswerStep(Holding(EMPTY_BUFFER, turns, t, i), turns[t].packets[i]);
    |steps| == 1 && steps[0].NbReply? && steps[0].ip == ip
  }

  /** Packet `j` of turn `u` gives the names of a host, for the first time. */
  predicate FirstNames(turns: seq<Turn>, u: nat, j: nat, ip: nat, step: Step)
    requires u < |turns| && j < |Heard(turns[u].packets)|
  {
    && AnswerStep(Holding(EMPTY_BUFFER, turns, u, j), turns[u].packets[j]) == [step] && NamesGiven(step, ip)
    && var before := Before(EMPTY_BUFFER, turns, u, j);
       forall k :: 0 <= k < |before| ==> !NamesGiven(before[k], ip)
  }

  ghost predicate IsAnnounced(turns: seq<Turn>, timeout: nat, ip: nat, step: Step)
    requires step.NbstatReply?
  {
    exists e: Entry :: Added(e) in Run(NOTHING, Course(turns, timeout), RemoveTimeout(timeout)).log
      && e.address == ip && e.name == StoredName(step.name)
      && (step.group.Some? ==> e.group == StoredName(step.group.value))
  }

  lemma LaterIsBehind(b: Buffer, turns: seq<Turn>, t: nat, i: nat, u: nat, j: nat)
    requires t < u < |turns| && i < |Heard(turns[t].packets)| && j < |Heard(turns[u].packets)|
    requires |AnswerStep(Holding(b, turns, t, i), turns[t].packets[i])| == 1
    ensures |Before(b, turns, t, i)| < |Before(b, turns, u, j)|
  {
    hide Answers, BufferAfter, AnswerStep, Heard, Timeline, BufferAt;
    assert turns[..u][..t] == turns[..t] && turns[..u][t] == turns[t];
    AnswerHasStep(b, turns[..u], t, i);
  }

  /**
   In an undisturbed run, a host that answers the broadcast, and gives its names for the first time
   before a sweep has found its last answer too old, is announced under the name it gave.
   */
  lemma AnsweringHostIsAnnounced(turns: seq<Turn>, timeout: nat, t: nat, i: nat, u: nat, j: nat, ip: nat, step: Step)
    requires timeout > 0 && Undisturbed(turns)
    requires t <= u < |turns| && i < |Heard(turns[t].packets)| && j < |Heard(turns[u].packets)| && (t < u || i < j)
    requires AnswersNb(turns, t, i, ip) && FirstNames(turns, u, j, ip, step)
    requires var m, n := |Before(EMPTY_BUFFER, turns, t, i)|, |Before(EMPTY_BUFFER, turns, u, j)|;
             n <= |Timeline(EMPTY_BUFFER, turns)| && KeptUpTo(Timeline(EMPTY_BUFFER, turns), RemoveTimeout(timeout), ip, m, n)
    ensures IsAnnounced(turns, timeout, ip, step)
  {
    hide Run, Steps, Timeline, Before, Holding, Answers, Heard, AnswerStep, Undisturbed, StoredName, KeptUpTo;
    var limit, steps := RemoveTimeout(timeout), Timeline(EMPTY_BUFFER, turns);
    StepsAreTimeline(NOTHING, EMPTY_BUFFER, turns, timeout);
    AnswerHasStep(EMPTY_BUFFER, turns, t, i);
    AnswerHasStep(EMPTY_BUFFER, turns, u, j);
    if t < u { LaterIsBehind(EMPTY_BUFFER, turns, t, i, u, j); } else { NoSweepBetween(EMPTY_BUFFER, turns, t, i, j); }
    var before := Before(EMPTY_BUFFER, turns, u, j);
    var m, n := |Before(EMPTY_BUFFER, turns, t, i)|, |before|;
    assert steps[..n] == before && steps[n] == step;
    assert forall k :: 0 <= k < n ==> steps[k] == before[k];
    AnnouncedWhenNamed(steps, limit, ip, m, n);
  }

  /** If both answers come in one period, there is no sweep that could drop the host in between. */
  lemma AnnouncedWithinPeriod(turns: seq<Turn>, timeout: nat, t: nat, i: nat, j: nat, ip: nat, step: Step)
    requires timeout > 0 && Undisturbed(turns) && t < |turns| && i < j < |Heard(turns[t].packets)|
    requires AnswersNb(turns, t, i, ip) && FirstNames(turns, t, j, ip, step)
    ensures IsAnnounced(turns, timeout, ip, step)
  {
    hide Timeline, Before, Holding, Heard, AnswerStep, Undisturbed, IsAnnounced;
    AnswerHasStep(EMPTY_BUFFER, turns, t, j);
    NoSweepBetween(EMPTY_BUFFER, turns, t, i, j);
    var before := Before(EMPTY_BUFFER, turns, t, j);
    assert forall k :: 0 <= k < |before| ==> Timeline(EMPTY_BUFFER, turns)[k] == before[k];
    AnsweringHostIsAnnounced(turns, timeout, t, i, t, j, ip, step);
  }

  /** Between two answers of one turn there are answers only. */
  lemma NoSweepBetween(b: Buffer, turns: seq<Turn>, t: nat, i: nat, j: nat)
    requires t < |turns| && i < j < |Heard(turns[t].packets)|
    requires |AnswerStep(Holding(b, turns, t, i), turns[t].packets[i])| == 1
    ensures |Before(b, turns, t, i)| < |Before(b, turns, t, j)|
    ensures forall k :: |Before(b, turns, t, i)| <= k < |Before(b, turns, t, j)| ==> !Before(b, turns, t, j)[k].Sweep?
  {
    hide Answers, BufferAfter, AnswerStep, Heard, Timeline, BufferAt;
    var b', heard := BufferAt(b, turns[..t]), Heard(turns[t].packets);
    AnswersUpTo(b', heard, i);
    assert heard[..j][..i + 1] == heard[..i + 1];
    AnswersPrefix(b', heard[..j], i + 1);
    AnswersDoNotSweep(b', heard[..j]);
    assert heard[i] == turns[t].packets[i];
    var before, own := |Timeline(b, turns[..t])| + 1, Answers(b', heard[..j]);
    assert forall k :: before <= k < before + |own| ==> Before(b, turns, t, j)[k] == own[k - before];
  }
}
