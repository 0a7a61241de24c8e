/** The discovery thread of src/netbios_ns.c over its linked list of entries. */
module Discovery {
  import opened Bytes
  import opened DiscoveryModel
  import opened Memory
  import opened Options
  import opened Sequences
  import opened TailQueue
  import NameReply

  /** `const int remove_timeout = 5 * discover_broadcast_timeout`, unsigned product, signed result. */
  function RemoveTimeout(timeout: nat): int
  {
    var product := 5 * timeout % TWO32;
    if product < TWO31 then product else product - TWO32
  }

  /** Eviction waits for five broadcast periods exactly when five periods fit a signed 32-bit int. */
  lemma RemoveTimeoutIsFivePeriods(timeout: nat)
    ensures RemoveTimeout(timeout) == 5 * timeout <==> 5 * timeout < TWO31
  {
  }

  /** With a period of 429496730 seconds the limit is negative, and every sweep drops every entry seen by then. */
  lemma RemoveTimeoutExample()
    ensures RemoveTimeout(429496730) == -2147483646
  {
  }

  type Buffer = s: seq<byte> | |s| == NameReply.BUFFER_SIZE witness Fill(0, NameReply.BUFFER_SIZE)

  const EMPTY_BUFFER: Buffer := Fill(0, NameReply.BUFFER_SIZE)

  /** What waiting on the socket can end with; a datagram comes with what the outside does about it. */
  datatype Packet = Broken | Quiet | Datagram(octets: seq<byte>, sender: nat, now: int, queryOk: bool)

  /** What the thread makes of it. */
  datatype Reply =
    | Failed
    | TimedOut
    | Nb(ip: nat, now: int, queryOk: bool)
    | Nbstat(sender: nat, at: int, name: WireName, group: Option<WireName>)
    | Unusable

  /** One turn of the outer loop: the abort flag, the clock, and the packets until the next turn. */
  datatype Turn = Turn(aborted: bool, now: int, packets: seq<Packet>)

  /** What `recvfrom` stores of a datagram. */
  function Stored(octets: seq<byte>): seq<byte>
  {
    if |octets| <= NameReply.BUFFER_SIZE then octets else octets[..NameReply.BUFFER_SIZE]
  }

  /** The receive buffer keeps what earlier datagrams left behind the new one. */
  function Filled(b: Buffer, p: Packet): Buffer
  {
    if p.Datagram? then Overwrite(b, 0, Stored(p.octets)) else b
  }

  function WireNameAt(b: Buffer, at: nat): WireName
    requires at + 15 <= |b|
  {
    b[at..at + 15]
  }

  /** A datagram that is refused, or says nothing of use, makes the thread wait for the next one. */
  function Interpret(b: Buffer, p: Packet): Reply
  {
    match p
    case Broken => Failed
    case Quiet => TimedOut
    case Datagram(octets, sender, now, queryOk) =>
      match NameReply.Parse(b, |Stored(octets)|, false, 0, sender)
      case None => Unusable
      case Some(Nothing) => Unusable
      case Some(NbFrom(ip)) => Nb(ip, now, queryOk)
      case Some(NbstatNames(name, group)) =>
        Nbstat(sender, now, WireNameAt(b, name), if group.Some? then Some(WireNameAt(b, group.value)) else None)
  }

  // --- which steps a run takes ------------------------------------------------------------------

  /** Why the inner loop ended: with a return, or with a break or the end of the input. */
  datatype Listening = Listening(steps: seq<Step>, returned: bool, buffer: Buffer)

  /** An entry still without a name whose NBSTAT query could not be sent ends the thread. */
  predicate MustGiveUp(s: State, ip: nat, queryOk: bool)
  {
    var k := Find(s.queue, ip);
    k < |s.queue| && !s.queue[k].validName && !queryOk
  }

  /** The step a reply makes the thread take, if any. */
  function StepOf(reply: Reply): seq<Step>
  {
    match reply
    case Nb(ip, now, _) => [NbReply(ip, now)]
    case Nbstat(sender, at, name, group) => [NbstatReply(sender, at, name, group)]
    case _ => []
  }

  /** How the inner loop goes on after that step. */
  datatype Outcome = GoOn | Break | Return

  function OutcomeOf(s: State, reply: Reply): Outcome
  {
    match reply
    case Failed => Return
    case TimedOut => Break
    case Nb(ip, _, queryOk) => if MustGiveUp(s, ip, queryOk) then Return else GoOn
    case _ => GoOn
  }

  function Listen(s: State, b: Buffer, packets: seq<Packet>, limit: int): Listening
    decreases |packets|
  {
    if packets == [] then Listening([], false, b)
    else
      var b' := Filled(b, packets[0]);
      var reply := Interpret(b', packets[0]);
      var s' := Run(s, StepOf(reply), limit);
      var outcome := OutcomeOf(s', reply);
      if outcome != GoOn then Listening(StepOf(reply), outcome == Return, b')
      else
        var rest := Listen(s', b', packets[1..], limit);
        rest.(steps := StepOf(reply) + rest.steps)
  }

  /** How the inner loop leaves everything behind it. */
  datatype Ending = Ending(state: State, returned: bool, buffer: Buffer)

  function EndingOf(s: State, b: Buffer, packets: seq<Packet>, limit: int): Ending
  {
    var heard := Listen(s, b, packets, limit);
    Ending(Run(s, heard.steps, limit), heard.returned, heard.buffer)
  }

  /** The inner loop takes its next packet, and then the others if it goes on. */
  lemma EndingNext(s: State, b: Buffer, packets: seq<Packet>, j: nat, limit: int)
    requires j < |packets|
    ensures var b' := Filled(b, packets[j]);
            var reply := Interpret(b', packets[j]);
            var s' := Run(s, StepOf(reply), limit);
            EndingOf(s, b, packets[j..], limit) ==
              if OutcomeOf(s', reply) != GoOn then Ending(s', OutcomeOf(s', reply) == Return, b')
              else EndingOf(s', b', packets[j + 1..], limit)
  {
    hide Run, Filled, Interpret, OutcomeOf, StepOf;
    assert packets[j..][1..] == packets[j + 1..];
    var b' := Filled(b, packets[j]);
    var reply := Interpret(b', packets[j]);
    var s' := Run(s, StepOf(reply), limit);
    RunConcat(s, StepOf(reply), Listen(s', b', packets[j + 1..], limit).steps, limit);
  }

  lemma EndingNone(s: State, b: Buffer, packets: seq<Packet>, limit: int)
    ensures packets[0..] == packets
    ensures EndingOf(s, b, packets[|packets|..], limit) == Ending(s, false, b)
  {
    RunNothing(s, limit);
  }

  /** The steps of the whole thread for a given course of the outside world. */
  function Steps(s: State, b: Buffer, turns: seq<Turn>, timeout: nat): seq<Step>
    decreases |turns|
  {
    if turns == [] || turns[0].aborted then []
    else
      var limit := RemoveTimeout(timeout);
      var swept := Apply(s, Sweep(turns[0].now), limit);
      var heard := Listen(swept, b, turns[0].packets, limit);
      var steps := [Sweep(turns[0].now)] + heard.steps;
      if heard.returned || timeout == 0 then steps
      else steps + Steps(Run(s, steps, limit), heard.buffer, turns[1..], timeout)
  }

  lemma {:induction false} RunConcat(s: State, a: seq<Step>, b: seq<Step>, limit: int)
    ensures Run(s, a + b, limit) == Run(Run(s, a, limit), b, limit)
    decreases |b|
  {
    hide Apply;
    if b == [] {
      assert a + b == a;
    } else {
      RunConcat(s, a, b[..|b| - 1], limit);
      assert (a + b)[..|a + b| - 1] == a + b[..|b| - 1];
    }
  }

  lemma RunNothing(s: State, limit: int)
    ensures Run(s, [], limit) == s
  {
  }

  lemma RunOne(s: State, step: Step, limit: int)
    ensures Run(s, [step], limit) == Apply(s, step, limit)
  {
    hide Apply;
    assert [step][..0] == [];
    assert Run(s, [], limit) == s;
  }

  lemma RunFirst(s: State, step: Step, rest: seq<Step>, limit: int)
    ensures Run(s, [step] + rest, limit) == Run(Apply(s, step, limit), rest, limit)
  {
    hide Apply, Run;
    RunConcat(s, [step], rest, limit);
    RunOne(s, step, limit);
  }

  // --- the thread -------------------------------------------------------------------------------

  class NameService {
    const queue: Queue<Entry>
    const buffer: array<byte>
    const timeout: nat     // discover_broadcast_timeout
    ghost var log: seq<Event>  // the callbacks made so far

    ghost predicate Valid()
      reads this, queue, queue.nodes
    {
      queue.Valid() && buffer.Length == NameReply.BUFFER_SIZE
    }

    ghost function Contents(): State
      reads this, queue, queue.nodes
    {
      State(Data(queue.nodes), log)
    }

    constructor (timeout: nat)
      ensures Valid() && Contents() == State([], []) && this.timeout == timeout
      ensures fresh(queue) && fresh(buffer) && queue.nodes == [] && buffer[..] == EMPTY_BUFFER
    {
      queue := new Queue<Entry>();
      buffer := new byte[NameReply.BUFFER_SIZE](_ => 0);
      this.timeout := timeout;
      log := [];
    }

    /** `netbios_ns_entry_find` by address. */
    method EntryFind(ip: nat) returns (iter: Node?<Entry>, ghost k: nat)
      requires Valid()
      ensures k == Find(Data(queue.nodes), ip)
      ensures iter == NodeAt(queue.nodes, k)
    {
      iter, k := queue.first, 0;
      ghost var q := Data(queue.nodes);
      while iter != null
        invariant k <= |q| && iter == NodeAt(queue.nodes, k)
        invariant forall i :: 0 <= i < k ==> !(q[i].validIp && q[i].address == ip)
        decreases |q| - k
      {
        if iter.data.validIp && iter.data.address == ip {
          FindUnique(q, ip, k);
          return;
        }
        assert queue.nodes[k].next == NodeAt(queue.nodes, k + 1);
        iter, k := iter.next, k + 1;
      }
      FindUnique(q, ip, k);
    }

    /** `netbios_ns_entry_add`. */
    method EntryAdd(ip: nat) returns (entry: Node<Entry>)
      requires Valid()
      modifies queue, queue.nodes
      ensures Valid() && fresh(entry) && queue.nodes == [entry] + old(queue.nodes)
      ensures entry.data == NewEntry(ip)
      ensures Data(queue.nodes) == [NewEntry(ip)] + old(Data(queue.nodes))
    {
      entry := new Node<Entry>(NewEntry(ip));
      queue.InsertHead(entry);
    }

    /** Writing a field of one entry: its links and every other entry stay as they are. */
    method Write(entry: Node<Entry>, ghost k: nat, data: Entry)
      requires Valid() && k < |queue.nodes| && queue.nodes[k] == entry
      modifies entry`data
      ensures Valid()
      ensures Data(queue.nodes) == old(Data(queue.nodes))[k := data]
    {
      entry.data := data;
    }

    ghost function Limit(): int { RemoveTimeout(timeout) }

    /** An NB answer: the sender is cached, and asked for its names unless they are known. */
    method HandleNb(ip: nat, now: int, queryOk: bool) returns (returned: bool)
      requires Valid()
      modifies queue, queue.nodes
      ensures Valid() && Owned(old(queue.nodes))
      ensures Contents() == Apply(old(Contents()), NbReply(ip, now), Limit())
      ensures returned == MustGiveUp(Contents(), ip, queryOk)
    {
      hide Queue.Valid, Apply, Find, MustGiveUp;
      ghost var s := Contents();
      var entry, k := FindOrAdd(ip);
      NbApplied(s, Data(queue.nodes), k, ip, now, queryOk, Limit());
      Write(entry, k, Seen(entry.data, now));
      returned := !entry.data.validName && !queryOk;
    }

    method FindOrAdd(ip: nat) returns (entry: Node<Entry>, ghost k: nat)
      requires Valid()
      modifies queue, queue.nodes
      ensures Valid() && Owned(old(queue.nodes)) && k < |queue.nodes| && queue.nodes[k] == entry
      ensures k == Find(Data(queue.nodes), ip)
      ensures var q := old(Data(queue.nodes));
              if Find(q, ip) < |q| then Data(queue.nodes) == q && k == Find(q, ip)
              else Data(queue.nodes) == [NewEntry(ip)] + q && k == 0
    {
      hide Queue.Valid;
      var iter;
      iter, k := EntryFind(ip);
      if iter == null {
        entry := EntryAdd(ip);
        k := 0;
      } else {
        entry := iter;
      }
    }

    /** An NBSTAT answer: ignored for unknown senders, reported the first time for known ones. */
    method HandleNbstat(sender: nat, now: int, name: WireName, group: Option<WireName>)
      requires Valid()
      modifies this`log, queue.nodes
      ensures Valid() && queue.nodes == old(queue.nodes)
      ensures Contents() == Apply(old(Contents()), NbstatReply(sender, now, name, group), Limit())
    {
      hide Queue.Valid, Kept, Evicted, StoredName, Find;
      var entry, k := EntryFind(sender);
      if entry == null { return; }
      var sendCallback := !entry.data.validName;
      var renamed := SetName(Seen(entry.data, now), name, group);
      Write(entry, k, renamed);
      if sendCallback {
        log := log + [Added(entry.data)];
      }
    }

    /** Every node is one of `nodes` or was allocated since. */
    twostate predicate Owned(nodes: seq<Node<Entry>>)
      reads this, queue
    {
      forall j :: 0 <= j < |queue.nodes| ==> queue.nodes[j] in nodes || fresh(queue.nodes[j])
    }

    /** What the inner loop does with one reply. */
    method React(reply: Reply) returns (outcome: Outcome)
      requires Valid()
      modifies this`log, queue, queue.nodes
      ensures Valid() && Owned(old(queue.nodes))
      ensures Contents() == Run(old(Contents()), StepOf(reply), Limit())
      ensures outcome == OutcomeOf(Contents(), reply)
    {
      hide Queue.Valid, Apply, Run, MustGiveUp;
      RunNothing(Contents(), Limit());
      match reply {
        case Failed => outcome := Return;
        case TimedOut => outcome := Break;
        case Unusable => outcome := GoOn;
        case Nb(ip, now, queryOk) =>
          RunOne(Contents(), NbReply(ip, now), Limit());
          var returned := HandleNb(ip, now, queryOk);
          outcome := if returned then Return else GoOn;
        case Nbstat(sender, at, name, group) =>
          RunOne(Contents(), NbstatReply(sender, at, name, group), Limit());
          HandleNbstat(sender, at, name, group);
          outcome := GoOn;
      }
    }

    /** One turn of the inner loop. */
    method Take(p: Packet) returns (outcome: Outcome)
      requires Valid()
      modifies this`log, queue, queue.nodes, buffer
      ensures Valid() && Owned(old(queue.nodes))
      ensures buffer[..] == Filled(old(buffer[..]), p)
      ensures var reply := Interpret(buffer[..], p);
              Contents() == Run(old(Contents()), StepOf(reply), Limit()) && outcome == OutcomeOf(Contents(), reply)
    {
      hide Queue.Valid, Run, Filled, Interpret, OutcomeOf, StepOf;
      var reply := Recv(buffer, p);
      outcome := React(reply);
    }

    /** The inner loop of the thread. */
    method Receive(packets: seq<Packet>) returns (returned: bool)
      requires Valid()
      modifies this`log, queue, queue.nodes, buffer
      ensures Valid() && Owned(old(queue.nodes))
      ensures Ending(Contents(), returned, buffer[..]) == EndingOf(old(Contents()), old(buffer[..]), packets, Limit())
    {
      hide Queue.Valid, Run, Filled, Interpret, OutcomeOf, StepOf, EndingOf;
      ghost var end := EndingOf(Contents(), buffer[..], packets, Limit());
      EndingNone(Contents(), buffer[..], packets, Limit());
      var j := 0;
      while j < |packets|
        invariant j <= |packets| && Valid() && Owned(old(queue.nodes))
        invariant EndingOf(Contents(), buffer[..], packets[j..], Limit()) == end
      {
        EndingNext(Contents(), buffer[..], packets, j, Limit());
        var outcome := Take(packets[j]);
        if outcome != GoOn { return outcome == Return; }
        j := j + 1;
      }
      EndingNone(Contents(), buffer[..], packets, Limit());
      returned := false;
    }

    /** `netbios_ns_discover_thread`, for any course of the outside world. */
    method DiscoverThread(turns: seq<Turn>)
      requires Valid()
      modifies this`log, queue, queue.nodes, buffer
      ensures Valid()
      ensures Contents() == Run(old(Contents()), Steps(old(Contents()), old(buffer[..]), turns, timeout), Limit())
    {
      hide Queue.Valid, Apply, Run, Listen;
      ghost var goal := Run(Contents(), Steps(Contents(), buffer[..], turns, timeout), Limit());
      var t := 0;
      while t < |turns|
        invariant t <= |turns| && Valid() && Owned(old(queue.nodes))
        invariant Run(Contents(), Steps(Contents(), buffer[..], turns[t..], timeout), Limit()) == goal
      {
        ghost var s := Contents();
        RunNothing(s, Limit());
        if turns[t].aborted { return; }
        ghost var swept := Apply(s, Sweep(turns[t].now), Limit());
        ghost var heard := Listen(swept, buffer[..], turns[t].packets, Limit());
        ghost var steps := [Sweep(turns[t].now)] + heard.steps;
        RunFirst(s, Sweep(turns[t].now), heard.steps, Limit());
        RunConcat(s, steps, Steps(Run(s, steps, Limit()), heard.buffer, turns[t + 1..], timeout), Limit());
        assert turns[t..][1..] == turns[t + 1..];
        ghost var nodes := queue.nodes;
        SweepEntries(turns[t].now);
        assert forall j :: 0 <= j < |queue.nodes| ==> queue.nodes[j] in nodes;
        var returned := Receive(turns[t].packets);
        if returned || timeout == 0 { return; }
        t := t + 1;
      }
      RunNothing(Contents(), Limit());
    }

    /** The eviction loop: the next entry is fetched before the current one may be unlinked. */
    method SweepEntries(now: int)
      requires Valid()
      modifies this`log, queue, queue.nodes
      ensures Valid()
      ensures Contents() == Apply(old(Contents()), Sweep(now), RemoveTimeout(timeout))
      ensures forall n :: n in queue.nodes ==> n in old(queue.nodes)
    {
      hide NameService.Swept, Queue.Valid, Apply;
      var limit := RemoveTimeout(timeout);
      ghost var nodes, before, i := queue.nodes, Contents(), 0;
      SweepStarts(now, limit);
      queue.FirstNode();
      var entry := queue.first;
      while entry != null
        invariant i <= |nodes| && entry == NodeAt(nodes, i)
        invariant Valid() && Swept(before, nodes, i, now, limit)
        decreases |nodes| - i
      {
        entry := Turn(entry, before, nodes, i, now, limit);
        i := i + 1;
      }
      assert i == |nodes|;
      SweepEnds(before, nodes, i, now, limit);
    }

    /** A sweep begun in state `before` over `nodes` that has got to index `i`. */
    ghost predicate Swept(before: State, nodes: seq<Node<Entry>>, i: nat, now: int, limit: int)
      reads this, queue, queue.nodes
    {
      && i <= |nodes| == |before.queue|
      && |Kept(before.queue[..i], now, limit)| <= |queue.nodes|
      && queue.nodes[|Kept(before.queue[..i], now, limit)|..] == nodes[i..]
      && (forall j :: 0 <= j < |queue.nodes| ==> queue.nodes[j] in nodes)
      && Data(queue.nodes) == Kept(before.queue[..i], now, limit) + before.queue[i..]
      && log == before.log + Evicted(before.queue[..i], now, limit)
    }

    lemma SweepStarts(now: int, limit: int)
      ensures Swept(Contents(), queue.nodes, 0, now, limit)
    {
    }

    lemma SweepEnds(before: State, nodes: seq<Node<Entry>>, i: nat, now: int, limit: int)
      requires Swept(before, nodes, i, now, limit) && i == |nodes|
      ensures Contents() == Apply(before, Sweep(now), limit)
      ensures forall n :: n in queue.nodes ==> n in nodes
    {
      assert before.queue[..|nodes|] == before.queue;
    }

    method Turn(entry: Node<Entry>, ghost before: State, ghost nodes: seq<Node<Entry>>, ghost i: nat, now: int, limit: int)
        returns (entryNext: Node?<Entry>)
      requires Valid() && Swept(before, nodes, i, now, limit)
      requires i < |nodes| && entry == nodes[i]
      modifies this`log, queue, nodes
      ensures Valid() && Swept(before, nodes, i + 1, now, limit)
      ensures entryNext == NodeAt(nodes, i + 1)
    {
      hide Kept, Evicted, Queue.Valid;
      ghost var q, k := before.queue, |Kept(before.queue[..i], now, limit)|;
      SweepOneMore(q, i, now, limit);
      assert queue.nodes[k] == queue.nodes[k..][0] == entry && entry.data == q[i];
      assert nodes[i + 1..] == nodes[i..][1..] == queue.nodes[k + 1..];
      entryNext := Visit(entry, k, now, limit);
    }

    /** What the loop does with one entry, and the entry it goes on with. */
    method Visit(entry: Node<Entry>, ghost k: nat, now: int, limit: int) returns (entryNext: Node?<Entry>)
      requires Valid() && k < |queue.nodes| && queue.nodes[k] == entry
      modifies this`log, queue, queue.nodes
      ensures Valid() && entryNext == NodeAt(old(queue.nodes), k + 1)
      ensures var e := old(entry.data);
              if Expired(e, now, limit)
              then queue.nodes == Without(old(queue.nodes), k) && Data(queue.nodes) == Without(old(Data(queue.nodes)), k)
              else queue.nodes == old(queue.nodes) && Data(queue.nodes) == old(Data(queue.nodes))
      ensures var e := old(entry.data);
              log == old(log) + (if Expired(e, now, limit) && e.validName then [Removed(e)] else [])
    {
      hide Queue.Valid;
      queue.NextNode(k);
      entryNext := entry.next;
      if now - entry.data.lastSeen > limit {
        if entry.data.validName {
          log := log + [Removed(entry.data)];
        }
        queue.Remove(entry, k);
      }
    }
  }

  /** `netbios_ns_recv` for one datagram, without the waiting. */
  method Recv(buffer: array<byte>, p: Packet) returns (reply: Reply)
    requires buffer.Length == NameReply.BUFFER_SIZE
    modifies buffer
    ensures buffer[..] == Filled(old(buffer[..]), p)
    ensures reply == Interpret(buffer[..], p)
  {
    hide NameReply.Parse;
    match p {
      case Broken => reply := Failed;
      case Quiet => reply := TimedOut;
      case Datagram(octets, sender, now, queryOk) =>
        MemCopy(buffer, 0, Stored(octets));
        reply := Understand(buffer, |Stored(octets)|, p);
    }
  }

  method Understand(buffer: array<byte>, size: nat, p: Packet) returns (reply: Reply)
    requires buffer.Length == NameReply.BUFFER_SIZE && p.Datagram? && size == |Stored(p.octets)|
    ensures reply == Interpret(buffer[..], p)
  {
    hide NameReply.Parse, NameReply.Accepted;
    var ok, query := NameReply.HandleQuery(buffer, size, false, 0, p.sender);
    if !ok { return Unusable; }
    match query {
      case Nothing => reply := Unusable;
      case NbFrom(ip) => reply := Nb(ip, p.now, p.queryOk);
      case NbstatNames(name, group) =>
        var b := buffer[..];
        reply := Nbstat(p.sender, p.now, WireNameAt(b, name),
                        if group.Some? then Some(WireNameAt(b, group.value)) else None);
    }
  }

  /** `netbios_ns_copy_name`: trailing spaces are overwritten from the end, up to the first other octet. */
  method CopyName(src: WireName) returns (dest: array<byte>)
    ensures fresh(dest) && dest[..] == StoredName(src)
  {
    dest := new byte[16];
    for i := 0 to 15
      invariant dest[..i] == src[..i]
    {
      dest[i] := src[i];
    }
    dest[15] := 0;
    var i := 1;
    while i < 15
      invariant 1 <= i <= 15
      invariant dest[..] == src[..16 - i] + Fill(0, i)
      invariant Trimmed(src, 15) == Trimmed(src, 16 - i)
    {
      if dest[15 - i] != ' ' as int { break; }
      dest[15 - i] := 0;
      i := i + 1;
    }
  }

  /** `netbios_ns_entry_set_name`. */
  method SetName(entry: Entry, name: WireName, group: Option<WireName>) returns (r: Entry)
    ensures r == Named(entry, name, group)
  {
    var stored := CopyName(name);
    r := entry.(name := stored[..]);
    if group.Some? {
      var storedGroup := CopyName(group.value);
      r := r.(group := storedGroup[..]);
    }
    r := r.(kind := NameReply.FILESERVER, validName := true);
  }

  /** The payloads of a list of nodes. */
  ghost function Data(nodes: seq<Node<Entry>>): (q: seq<Entry>)
    reads nodes
    ensures |q| == |nodes| && forall i :: 0 <= i < |q| ==> q[i] == nodes[i].data
  {
    seq(|nodes|, i requires 0 <= i < |nodes| reads nodes => nodes[i].data)
  }

  lemma FindUnique(q: seq<Entry>, ip: nat, k: nat)
    requires k <= |q|
    requires k < |q| ==> q[k].validIp && q[k].address == ip
    requires forall i :: 0 <= i < k ==> !(q[i].validIp && q[i].address == ip)
    ensures k == Find(q, ip)
  {
    var j := Find(q, ip);
    assert j >= k;
  }

  /** The step of an NB answer, once the entry has been found or put in front. */
  lemma NbApplied(s: State, q: seq<Entry>, k: nat, ip: nat, now: int, queryOk: bool, limit: int)
    requires k == Find(q, ip) && k < |q|
    requires if Find(s.queue, ip) < |s.queue| then q == s.queue && k == Find(s.queue, ip)
             else q == [NewEntry(ip)] + s.queue && k == 0
    ensures Apply(s, NbReply(ip, now), limit) == State(q[k := Seen(q[k], now)], s.log)
    ensures MustGiveUp(Apply(s, NbReply(ip, now), limit), ip, queryOk) <==> !q[k].validName && !queryOk
  {
    hide Find;
    var after := q[k := Seen(q[k], now)];
    FindUnique(after, ip, k);
    if Find(s.queue, ip) == |s.queue| {
      assert after == [Seen(NewEntry(ip), now)] + s.queue;
    }
  }
}
