/** Session framing of src/netbios_session.c over a byte stream (sections 4.3.1 and 4.3.7 of RFC 1002). */
module NetbiosSession {
  import opened Bytes
  import opened Memory
  import opened Options

  const HEADER: nat := 4  // sizeof(netbios_session_packet)
  const MESSAGE: byte := 0x00
  const KEEPALIVE: byte := 0x85

  // --- frames -----------------------------------------------------------------------------------

  /** A packet as it stands in the stream: seven of the flag bits carry no length. */
  datatype Frame = Frame(opcode: byte, flags: byte, payload: seq<byte>)

  /** Payload lengths have 17 bits, the top one in the lowest flag bit. */
  predicate WellFormed(f: Frame)
  {
    |f.payload| < 0x2_0000 && f.flags % 2 == |f.payload| / 0x1_0000
  }

  function Encode(f: Frame): seq<byte>
    requires WellFormed(f)
  {
    [f.opcode, f.flags] + LengthField(|f.payload|) + f.payload
  }

  function EncodeAll(fs: seq<Frame>): seq<byte>
    requires forall f :: f in fs ==> WellFormed(f)
  {
    if fs == [] then [] else Encode(fs[0]) + EncodeAll(fs[1..])
  }

  /** The payload length a packet header announces: `ntohs(length) | (flags & 1) << 16`. */
  function Announced(header: seq<byte>): nat
    requires |header| >= HEADER
  {
    var high: int, low: int, flags: int := header[2], header[3], header[1];
    256 * high + low + 0x1_0000 * (flags % 2)
  }

  /** The first frame of a stream, if all of it is there, and what follows it. */
  function FirstFrame(stream: seq<byte>): Option<(Frame, seq<byte>)>
  {
    if |stream| < HEADER then None
    else
      var n := Announced(stream);
      if |stream| < HEADER + n then None
      else Some((Frame(stream[0], stream[1], stream[HEADER..HEADER + n]), stream[HEADER + n..]))
  }

  /** The first frame that is not a keepalive, and what follows it. */
  function NextMessage(stream: seq<byte>): Option<(Frame, seq<byte>)>
    decreases |stream|
  {
    match FirstFrame(stream)
    case None => None
    case Some((f, rest)) => if f.opcode == KEEPALIVE then NextMessage(rest) else Some((f, rest))
  }

  lemma FirstFrameOfEncoded(f: Frame, rest: seq<byte>)
    requires WellFormed(f)
    ensures FirstFrame(Encode(f) + rest) == Some((f, rest))
  {
    var s := Encode(f) + rest;
    var n := |f.payload| % 0x1_0000;
    assert s[0] == f.opcode && s[1] == f.flags && s[2] == n / 256 && s[3] == n % 256;
    assert Announced(s) == |f.payload|;
    assert s[HEADER..HEADER + |f.payload|] == f.payload;
    assert s[HEADER + |f.payload|..] == rest;
  }

  /** Keepalives, however many, are passed over; the message behind them is delivered whole. */
  lemma {:induction false} KeepalivesAreSkipped(fs: seq<Frame>, f: Frame, rest: seq<byte>)
    requires forall k :: k in fs ==> WellFormed(k) && k.opcode == KEEPALIVE
    requires WellFormed(f) && f.opcode != KEEPALIVE
    ensures NextMessage(EncodeAll(fs) + Encode(f) + rest) == Some((f, rest))
    decreases |fs|
  {
    if fs == [] {
      assert EncodeAll(fs) + Encode(f) + rest == Encode(f) + rest;
      FirstFrameOfEncoded(f, rest);
    } else {
      var behind := EncodeAll(fs[1..]) + Encode(f) + rest;
      assert EncodeAll(fs) + Encode(f) + rest == Encode(fs[0]) + behind;
      FirstFrameOfEncoded(fs[0], behind);
      KeepalivesAreSkipped(fs[1..], f, rest);
    }
  }

  /** What `netbios_session_packet_send` writes: a 16-bit length, and no seventeenth bit. */
  function Sent(opcode: byte, payload: seq<byte>): seq<byte>
  {
    [opcode, 0] + LengthField(|payload|) + payload
  }

  /** A sent packet is read back as it was exactly if its payload has at most 65535 octets. */
  lemma SendReceive(opcode: byte, payload: seq<byte>)
    requires opcode != KEEPALIVE
    ensures NextMessage(Sent(opcode, payload)) == Some((Frame(opcode, 0, payload), [])) <==> |payload| <= 0xffff
  {
    var f := Frame(opcode, 0, payload);
    var s := Sent(opcode, payload);
    if |payload| <= 0xffff {
      assert Sent(opcode, payload) == Encode(f) + [];
      FirstFrameOfEncoded(f, []);
    } else {
      assert s[1] == 0 && Announced(s) == |payload| % 0x1_0000;
      assert FirstFrame(s).Some? && |FirstFrame(s).value.0.payload| < |payload|;
    }
  }

  /** A payload of 65536 octets: the length field is zero, and an empty message is read. */
  lemma SendReceiveExample(opcode: byte, payload: seq<byte>)
    requires opcode != KEEPALIVE && |payload| == 0x1_0000
    ensures NextMessage(Sent(opcode, payload)) == Some((Frame(opcode, 0, []), payload))
  {
    var s := Sent(opcode, payload);
    assert s[1] == 0 && s[2] == 0 && s[3] == 0 && Announced(s) == 0;
    assert s[HEADER..HEADER] == [] && s[HEADER..] == payload;
  }

  // --- where appends may write --------------------------------------------------------------------

  /** `packet_payload_size - packet_cursor < size`, in wrapping arithmetic. */
  predicate AppendGrows(payloadSize: nat, cursor: nat, size: nat)
  {
    (payloadSize - cursor) % TWO64 < size
  }

  /** An append copies inside the `room` octets of a packet if it enlarges it, or if it fits. */
  predicate AppendStaysInside(room: nat, payloadSize: nat, cursor: nat, size: nat)
  {
    AppendGrows(payloadSize, cursor, size) || HEADER + cursor + size <= room
  }

  /**
   While the size field leaves the header out, an append never writes past the packet. Once a
   reallocation has made it count the header, it does for the last four sizes that do not grow it.
   */
  lemma AppendBound(room: nat, payloadSize: nat, cursor: nat, size: nat)
    requires cursor <= payloadSize < TWO64
    requires room == payloadSize + HEADER || room == payloadSize
    ensures AppendStaysInside(room, payloadSize, cursor, size) <==>
            (room == payloadSize + HEADER || !(payloadSize < HEADER + cursor + size <= payloadSize + HEADER))
  {
  }

  /** With the default 8192-octet buffer: receive 8189 octets, then append 8190. */
  lemma AppendBoundExample()
    ensures 8189 + HEADER > 8192
    ensures !AppendStaysInside(8189 + HEADER, 8189 + HEADER, 0, 8190)
  {
  }

  /** What an append leaves in the allocation, the size field and the cursor. */
  datatype Sizes = Sizes(room: nat, payloadSize: nat, cursor: nat)
  {
    predicate Coherent()
    {
      HEADER + cursor <= room && (room == payloadSize + HEADER || room == payloadSize)
    }

    function Append(size: nat): Sizes
    {
      var end := cursor + size;
      if AppendGrows(payloadSize, cursor, size) then Sizes(HEADER + end, HEADER + end, end)
      else Sizes(room, payloadSize, end)
    }

    predicate StaysInside(size: nat)
    {
      AppendStaysInside(room, payloadSize, cursor, size)
    }
  }

  /** Every append of a run copies inside the packet as the ones before it left it. */
  predicate RunStaysInside(z: Sizes, pieces: seq<seq<byte>>)
    decreases |pieces|
  {
    pieces == [] || (z.StaysInside(|pieces[0]|) && RunStaysInside(z.Append(|pieces[0]|), pieces[1..]))
  }

  /** The octets of the first `j` pieces. */
  function Total(pieces: seq<seq<byte>>, j: nat): nat
    requires j <= |pieces|
  {
    if j == 0 then 0 else Total(pieces, j - 1) + |pieces[j - 1]|
  }

  lemma {:induction false} TotalTail(pieces: seq<seq<byte>>, j: nat)
    requires 0 < j <= |pieces|
    ensures Total(pieces, j) == |pieces[0]| + Total(pieces[1..], j - 1)
  {
    if j > 1 { TotalTail(pieces, j - 1); }
  }

  lemma {:induction false} TotalGrows(pieces: seq<seq<byte>>, i: nat, j: nat)
    requires i <= j <= |pieces|
    ensures Total(pieces, i) <= Total(pieces, j)
    decreases j
  {
    if i < j { TotalGrows(pieces, i, j - 1); }
  }

  predicate FewOctets(n: nat) { 1 <= n <= HEADER }

  /**
   Piece `j` is copied inside: once the packet has grown it is empty or longer than the header, and
   until then it does not end in the last four octets of a size field that counts the header.
   */
  predicate PieceFits(z: Sizes, pieces: seq<seq<byte>>, j: nat)
    requires j < |pieces|
  {
    if z.cursor + Total(pieces, j) > z.payloadSize then !FewOctets(|pieces[j]|)
    else !(z.room < HEADER + z.cursor + Total(pieces, j + 1) <= HEADER + z.payloadSize)
  }

  lemma TailFew(pieces: seq<seq<byte>>)
    requires pieces != []
    ensures (forall j :: 0 <= j < |pieces| ==> !FewOctets(|pieces[j]|)) <==>
            (!FewOctets(|pieces[0]|) && forall j :: 0 <= j < |pieces[1..]| ==> !FewOctets(|pieces[1..][j]|))
  {
    assert forall j :: 0 < j < |pieces| ==> pieces[j] == pieces[1..][j - 1];
    assert forall j :: 0 <= j < |pieces[1..]| ==> pieces[1..][j] == pieces[j + 1];
  }

  /** Right after a growth four octets are free by the size field and none in the packet. */
  lemma {:induction false} AfterGrowth(cursor: nat, pieces: seq<seq<byte>>)
    requires HEADER + cursor + Total(pieces, |pieces|) < TWO64
    ensures RunStaysInside(Sizes(HEADER + cursor, HEADER + cursor, cursor), pieces) <==>
            forall j :: 0 <= j < |pieces| ==> !FewOctets(|pieces[j]|)
    decreases |pieces|
  {
    hide FewOctets;
    if pieces != [] {
      var z, n := Sizes(HEADER + cursor, HEADER + cursor, cursor), |pieces[0]|;
      TotalTail(pieces, |pieces|);
      TailFew(pieces);
      GrowthOfGrown(cursor, n);
      if z.StaysInside(n) { AfterGrowth(cursor + n, pieces[1..]); }
    }
  }

  lemma GrowthOfGrown(cursor: nat, n: nat)
    requires HEADER + cursor + n < TWO64
    ensures var z := Sizes(HEADER + cursor, HEADER + cursor, cursor);
            && (z.StaysInside(n) <==> !FewOctets(n))
            && (z.StaysInside(n) ==> z.Append(n) == Sizes(HEADER + cursor + n, HEADER + cursor + n, cursor + n))
  {
  }

  /**
   A run of appends stays inside the packet exactly if every piece fits. From a size field that
   leaves the header out: no piece of one to four octets follows the one that enlarged the packet.
   */
  lemma {:induction false} RunBound(z: Sizes, pieces: seq<seq<byte>>)
    requires z.Coherent() && HEADER + z.cursor + Total(pieces, |pieces|) < TWO64 && z.payloadSize < TWO64
    ensures RunStaysInside(z, pieces) <==> forall j :: 0 <= j < |pieces| ==> PieceFits(z, pieces, j)
    decreases |pieces|
  {
    hide PieceFits;
    if pieces != [] {
      var n, rest := |pieces[0]|, pieces[1..];
      TotalTail(pieces, |pieces|);
      FirstPiece(z, pieces);
      if z.StaysInside(n) {
        var z' := z.Append(n);
        if AppendGrows(z.payloadSize, z.cursor, n) {
          AfterGrowth(z.cursor + n, rest);
          assert z' == Sizes(HEADER + z.cursor + n, HEADER + z.cursor + n, z.cursor + n);
          forall j | 0 < j < |pieces|
            ensures PieceFits(z, pieces, j) <==> !FewOctets(|rest[j - 1]|)
          {
            GrownPiece(z, pieces, j);
          }
          assert forall j :: 0 <= j < |rest| ==> (PieceFits(z, pieces, j + 1) <==> !FewOctets(|rest[j]|));
        } else {
          RunBound(z', rest);
          forall j | 0 < j < |pieces|
            ensures PieceFits(z, pieces, j) <==> PieceFits(z', rest, j - 1)
          {
            LaterPiece(z, pieces, j);
          }
          assert forall j :: 0 <= j < |rest| ==> (PieceFits(z, pieces, j + 1) <==> PieceFits(z', rest, j));
        }
      }
    }
  }

  /** While the size field leaves the header out, only short pieces behind a growth are written outside. */
  lemma RunBoundFresh(z: Sizes, pieces: seq<seq<byte>>)
    requires z.room == z.payloadSize + HEADER && z.cursor <= z.payloadSize < TWO64
    requires HEADER + z.cursor + Total(pieces, |pieces|) < TWO64
    ensures RunStaysInside(z, pieces) <==>
            forall j :: 0 <= j < |pieces| && z.cursor + Total(pieces, j) > z.payloadSize ==> !FewOctets(|pieces[j]|)
  {
    RunBound(z, pieces);
    assert forall j :: 0 <= j < |pieces| ==>
             (PieceFits(z, pieces, j) <==> (z.cursor + Total(pieces, j) > z.payloadSize ==> !FewOctets(|pieces[j]|)));
  }

  lemma FirstPiece(z: Sizes, pieces: seq<seq<byte>>)
    requires z.Coherent() && pieces != [] && z.payloadSize < TWO64
    ensures PieceFits(z, pieces, 0) <==> z.StaysInside(|pieces[0]|)
    ensures AppendGrows(z.payloadSize, z.cursor, |pieces[0]|) <==> z.cursor + |pieces[0]| > z.payloadSize
    ensures z.StaysInside(|pieces[0]|) && !AppendGrows(z.payloadSize, z.cursor, |pieces[0]|) ==> z.Append(|pieces[0]|).Coherent()
  {
    assert Total(pieces, 0) == 0 && Total(pieces, 1) == |pieces[0]|;
    assert z.cursor <= z.payloadSize;
    assert (z.payloadSize - z.cursor) % TWO64 == z.payloadSize - z.cursor;
  }

  lemma GrownPiece(z: Sizes, pieces: seq<seq<byte>>, j: nat)
    requires 0 < j < |pieces| && z.cursor + |pieces[0]| > z.payloadSize
    ensures PieceFits(z, pieces, j) <==> !FewOctets(|pieces[1..][j - 1]|)
  {
    assert Total(pieces, 1) == |pieces[0]|;
    TotalGrows(pieces, 1, j);
  }

  lemma LaterPiece(z: Sizes, pieces: seq<seq<byte>>, j: nat)
    requires 0 < j < |pieces| && !AppendGrows(z.payloadSize, z.cursor, |pieces[0]|)
    ensures PieceFits(z, pieces, j) <==> PieceFits(z.Append(|pieces[0]|), pieces[1..], j - 1)
  {
    TotalTail(pieces, j);
    TotalTail(pieces, j + 1);
  }

  lemma TotalOfTwo(a: seq<byte>, b: seq<byte>)
    ensures Total([a, b], 1) == |a| && Total([a, b], 2) == |a| + |b|
  {
    assert Total([a, b], 0) == 0;
    assert Total([a, b], 1) == Total([a, b], 0) + |a|;
  }

  /** The default buffer, 8193 octets and then one more: the second append is not inside. */
  lemma RunBoundExample(big: seq<byte>, one: seq<byte>)
    requires |big| == 8193 && |one| == 1
    ensures !RunStaysInside(Sizes(8192 + HEADER, 8192, 0), [big, one])
  {
    var pieces := [big, one];
    TotalOfTwo(big, one);
    RunBound(Sizes(8192 + HEADER, 8192, 0), pieces);
    assert !PieceFits(Sizes(8192 + HEADER, 8192, 0), pieces, 1);
  }

  /** The two encoded names of a session request stay inside whatever the size of a new session's buffer. */
  lemma SessionRequestStaysInside(bufSize: nat, called: seq<byte>, calling: seq<byte>)
    requires |called| == |calling| == 34 && bufSize < TWO63
    ensures RunStaysInside(Sizes(bufSize + HEADER, bufSize, 0), [called, calling])
  {
    var pieces := [called, calling];
    TotalOfTwo(called, calling);
    RunBound(Sizes(bufSize + HEADER, bufSize, 0), pieces);
  }

  // --- the stream -------------------------------------------------------------------------------

  /** A connected socket: octets still to come, handed out in pieces of any positive size. */
  class Socket {
    var incoming: seq<byte>
    var broken: bool  // a call has failed although octets were still to come, or the wait was aborted

    constructor (incoming: seq<byte>)
      ensures this.incoming == incoming && !broken
    {
      this.incoming, broken := incoming, false;
    }

    /** `netbios_session_recv`. Without an error it fails only at the end of the stream. */
    method Recv(len: nat) returns (data: seq<byte>)
      requires len > 0
      modifies this
      ensures |data| <= len && old(incoming) == data + incoming
      ensures data == [] ==> broken || incoming == []
      ensures data != [] ==> broken == old(broken)
    {
      var failed := *;
      if failed {
        broken := true;
        return [];
      }
      if incoming == [] {
        return [];
      }
      var k :| 0 < k <= len && k <= |incoming|;
      data := incoming[..k];
      incoming := incoming[k..];
    }
  }

  // --- the session ------------------------------------------------------------------------------

  datatype Appended = Done | NoMemory | Past

  class Session {
    var packet: array<byte>      // header and payload
    var packetPayloadSize: nat
    var packetCursor: nat
    var lost: bool               // an allocation has failed
    const socket: Socket

    /** The size field leaves the header out at first, and counts it after a reallocation. */
    ghost predicate Valid()
      reads this
    {
      && HEADER <= packet.Length
      && (packet.Length == packetPayloadSize + HEADER || packet.Length == packetPayloadSize)
    }

    constructor (bufSize: nat, socket: Socket)
      ensures Valid() && fresh(packet) && this.socket == socket
      ensures packetPayloadSize == bufSize && packet.Length == bufSize + HEADER && packetCursor == 0 && !lost
    {
      lost := false;
      packetPayloadSize, packetCursor := bufSize, 0;
      packet := new byte[HEADER + bufSize];
      this.socket := socket;
    }

    /** `session_buffer_realloc`: the size field now counts the header too. */
    method Realloc(newSize: nat) returns (ok: bool)
      requires Valid() && newSize >= HEADER
      modifies this`packet, this`packetPayloadSize, this`lost
      ensures !ok ==> lost && packet == old(packet) && packetPayloadSize == old(packetPayloadSize)
      ensures ok ==> lost == old(lost) && fresh(packet) && packet.Length == packetPayloadSize == newSize
      ensures ok ==> var kept := if newSize < old(packet.Length) then newSize else old(packet.Length);
                     packet[..kept] == old(packet[..kept])
    {
      ok := *;
      if !ok {
        lost := true;
        return;
      }
      var grown := new byte[newSize];
      forall i | 0 <= i < newSize && i < packet.Length {
        grown[i] := packet[i];
      }
      packet, packetPayloadSize := grown, newSize;
    }

    /** Fills `total` octets of the packet from offset `at`, in as many reads as it takes. */
    method Fill(at: nat, total: nat) returns (ok: bool)
      requires Valid() && at + total <= packet.Length
      modifies packet, socket
      ensures packet[..at] == old(packet[..at])
      ensures ok ==> |old(socket.incoming)| >= total && socket.broken == old(socket.broken)
      ensures ok ==> packet[at..at + total] == old(socket.incoming)[..total]
      ensures ok ==> socket.incoming == old(socket.incoming)[total..]
      ensures !ok ==> socket.broken || |old(socket.incoming)| < total
    {
      var sofar := 0;
      while sofar < total
        invariant sofar <= total && sofar <= |old(socket.incoming)|
        invariant socket.broken == old(socket.broken)
        invariant packet[..at + sofar] == old(packet[..at]) + old(socket.incoming)[..sofar]
        invariant socket.incoming == old(socket.incoming)[sofar..]
      {
        var data := socket.Recv(total - sofar);
        if data == [] {
          return false;
        }
        MemCopy(packet, at + sofar, data);
        var next := sofar + |data|;
        assert old(socket.incoming)[..next] == old(socket.incoming)[..sofar] + data;
        sofar := next;
      }
      assert packet[..at + total][..at] == packet[..at] && packet[..at + total][at..] == packet[at..at + total];
      ok := true;
    }

    /** The packet in the buffer, with a payload of `size` octets. */
    ghost function Held(size: nat): Frame
      requires HEADER + size <= packet.Length
      reads this, packet
    {
      Frame(packet[0], packet[1], packet[HEADER..HEADER + size])
    }

    /** `netbios_session_get_next_packet`: exactly one packet, whatever its type. */
    method GetNextPacket() returns (size: int)
      requires Valid()
      modifies this`packet, this`packetPayloadSize, this`lost, packet, socket
      ensures Valid() && (packet == old(packet) || fresh(packet))
      ensures size >= 0 ==> HEADER + size <= packet.Length && socket.broken == old(socket.broken) && lost == old(lost)
      ensures size >= 0 ==> FirstFrame(old(socket.incoming)) == Some((Held(size), socket.incoming))
      ensures size < 0 ==> socket.broken || lost || FirstFrame(old(socket.incoming)) == None
    {
      var ok := Fill(0, HEADER);
      if !ok { return -1; }
      assert packet[0..HEADER] == old(socket.incoming)[..HEADER];
      var total := Announced(packet[..HEADER]);
      assert total == Announced(old(socket.incoming));
      if total + HEADER > packetPayloadSize {
        ok := Realloc(total + HEADER);
        if !ok { return -1; }
      }
      assert packet[..HEADER] == old(socket.incoming)[..HEADER];
      ok := Fill(HEADER, total);
      if !ok { return -1; }
      assert packet[..HEADER] == old(socket.incoming)[..HEADER];
      assert packet[0] == packet[..HEADER][0] && packet[1] == packet[..HEADER][1];
      ghost var s := old(socket.incoming);
      assert s[HEADER..][..total] == s[HEADER..HEADER + total] && s[HEADER..][total..] == s[HEADER + total..];
      size := total;
    }

    /** `netbios_session_packet_recv`: the next message; keepalives are read and dropped. */
    method PacketRecv() returns (size: int)
      requires Valid()
      modifies this`packet, this`packetPayloadSize, this`lost, packet, socket
      ensures Valid() && (packet == old(packet) || fresh(packet))
      ensures size >= 0 ==> HEADER + size <= packet.Length
      ensures size >= 0 ==> NextMessage(old(socket.incoming)) == Some((Held(size), socket.incoming))
      ensures size < 0 ==> socket.broken || lost || NextMessage(old(socket.incoming)) == None
    {
      while true
        invariant Valid() && (packet == old(packet) || fresh(packet))
        invariant NextMessage(socket.incoming) == NextMessage(old(socket.incoming))
        decreases |socket.incoming|
      {
        size := GetNextPacket();
        if size < 0 || packet[0] != KEEPALIVE { return; }
      }
    }

    method PacketInit()
      requires Valid()
      modifies this`packetCursor, packet
      ensures Valid() && packetCursor == 0 && packet[0] == MESSAGE && packet[1] == 0
    {
      packetCursor := 0;
      packet[1] := 0;
      packet[0] := MESSAGE;
    }

    ghost function Extent(): Sizes
      reads this
    {
      Sizes(packet.Length, packetPayloadSize, packetCursor)
    }

    /** `netbios_session_packet_append`; the model stops where the copy would leave the packet. */
    method PacketAppend(data: seq<byte>) returns (end: Appended)
      requires Valid() && HEADER + packetCursor <= packet.Length
      modifies this, packet
      ensures Valid() && (packet == old(packet) || fresh(packet))
      ensures HEADER + packetCursor <= packet.Length
      ensures end.Past? <==> !old(Extent()).StaysInside(|data|)
      ensures !end.Done? ==> packetCursor == old(packetCursor)
      ensures end.NoMemory? ==> lost
      ensures end.Done? ==> Extent() == old(Extent()).Append(|data|) && lost == old(lost)
      ensures end.Done? ==> packet[..HEADER + packetCursor] == old(packet[..HEADER + packetCursor]) + data
    {
      var ok := EnsureRoom(|data|);
      if !ok { return NoMemory; }
      if HEADER + packetCursor + |data| > packet.Length { return Past; }
      MemCopy(packet, HEADER + packetCursor, data);
      packetCursor := packetCursor + |data|;
      end := Done;
    }

    /** The reallocation `netbios_session_packet_append` may begin with. */
    method EnsureRoom(size: nat) returns (ok: bool)
      requires Valid() && HEADER + packetCursor <= packet.Length
      modifies this`packet, this`packetPayloadSize, this`lost
      ensures Valid() && (packet == old(packet) || fresh(packet))
      ensures HEADER + packetCursor <= packet.Length
      ensures !ok ==> lost && AppendGrows(old(packetPayloadSize), packetCursor, size)
      ensures ok ==> lost == old(lost) && packet[..HEADER + packetCursor] == old(packet[..HEADER + packetCursor])
      ensures ok ==> var z := old(Extent()).Append(size); packet.Length == z.room && packetPayloadSize == z.payloadSize
      ensures ok && !old(Extent()).StaysInside(size) ==> packet == old(packet)
    {
      hide AppendGrows;
      ok := true;
      if AppendGrows(packetPayloadSize, packetCursor, size) {
        ghost var kept := if size + packetCursor + HEADER < packet.Length then size + packetCursor + HEADER else packet.Length;
        ok := Realloc(size + packetCursor + HEADER);
        assert ok ==> packet[..HEADER + packetCursor] == packet[..kept][..HEADER + packetCursor];
      }
    }

    /** The octets `netbios_session_packet_send` hands to `send`. */
    method PacketSend() returns (data: seq<byte>)
      requires Valid() && HEADER + packetCursor <= packet.Length
      modifies packet
      ensures data == old(packet[..2]) + LengthField(packetCursor) + old(packet[HEADER..HEADER + packetCursor])
      ensures packet[..] == old(packet[..2]) + LengthField(packetCursor) + old(packet[HEADER..])
    {
      var n := packetCursor % 0x1_0000;
      packet[2], packet[3] := n / 256, n % 256;
      data := packet[..HEADER + packetCursor];
    }
  }

  /** `htons` of a length, stored. */
  function LengthField(n: nat): (r: seq<byte>)
    ensures |r| == 2
  {
    [n % 0x1_0000 / 256, n % 0x1_0000 % 256]
  }

  /** Appends one piece after another, as far as they go. */
  method AppendAll(s: Session, pieces: seq<seq<byte>>) returns (end: Appended)
    requires s.Valid() && HEADER + s.packetCursor <= s.packet.Length
    modifies s, s.packet
    ensures s.Valid() && (s.packet == old(s.packet) || fresh(s.packet))
    ensures HEADER + s.packetCursor <= s.packet.Length
    ensures end.Past? ==> !RunStaysInside(old(s.Extent()), pieces)
    ensures end.NoMemory? ==> s.lost
    ensures end.Done? ==> RunStaysInside(old(s.Extent()), pieces)
    ensures end.Done? ==> s.packetCursor == old(s.packetCursor) + |Concat(pieces)|
    ensures end.Done? ==> s.packet[..HEADER + s.packetCursor] == old(s.packet[..HEADER + s.packetCursor]) + Concat(pieces)
  {
    hide Concat, AppendStaysInside, AppendGrows;
    ghost var z := s.Extent();
    ghost var before := s.packet[..HEADER + s.packetCursor];
    ConcatNone(pieces);
    assert before + [] == before && pieces[0..] == pieces;
    for i := 0 to |pieces|
      invariant s.Valid() && (s.packet == old(s.packet) || fresh(s.packet)) && HEADER + s.packetCursor <= s.packet.Length
      invariant RunStaysInside(s.Extent(), pieces[i..]) == RunStaysInside(z, pieces)
      invariant s.packetCursor == old(s.packetCursor) + |Concat(pieces[..i])|
      invariant s.packet[..HEADER + s.packetCursor] == before + Concat(pieces[..i])
    {
      assert pieces[i..][1..] == pieces[i + 1..];
      end := s.PacketAppend(pieces[i]);
      if !end.Done? { return; }
      ConcatPrefixStep(pieces, i);
      assert before + (Concat(pieces[..i]) + pieces[i]) == (before + Concat(pieces[..i])) + pieces[i];
    }
    assert pieces[..|pieces|] == pieces;
    end := Done;
  }

  /** A packet built with `init` and any appends, and the octets `send` makes of it. */
  method SendPieces(sender: Session, opcode: byte, pieces: seq<seq<byte>>) returns (end: Appended, data: seq<byte>)
    requires sender.Valid()
    modifies sender, sender.packet
    ensures sender.Valid() && (sender.packet == old(sender.packet) || fresh(sender.packet))
    ensures end.Past? ==> !RunStaysInside(Sizes(old(sender.packet.Length), old(sender.packetPayloadSize), 0), pieces)
    ensures end.NoMemory? ==> sender.lost
    ensures end.Done? ==> RunStaysInside(Sizes(old(sender.packet.Length), old(sender.packetPayloadSize), 0), pieces)
    ensures end.Done? ==> data == Sent(opcode, Concat(pieces))
  {
    hide Concat, RunStaysInside;
    data := [];
    sender.PacketInit();
    sender.packet[0] := opcode;
    ghost var header := sender.packet[..HEADER];
    end := AppendAll(sender, pieces);
    if !end.Done? { return; }
    ghost var p := sender.packet[..HEADER + sender.packetCursor];
    assert p == header + Concat(pieces);
    assert sender.packet[..2] == p[..2] == header[..2] == [opcode, 0];
    assert sender.packet[HEADER..HEADER + sender.packetCursor] == p[HEADER..] == Concat(pieces);
    data := sender.PacketSend();
  }

  /**
   Any pieces, appended to a packet by a session in any state, framed, and read by another session
   in any state through any cutting of the stream: what arrives is the pieces joined.
   */
  method Transfer(sender: Session, peer: Session, opcode: byte, pieces: seq<seq<byte>>)
      returns (end: Appended, received: Option<seq<byte>>)
    requires sender.Valid() && peer.Valid() && sender != peer && sender.packet != peer.packet
    requires peer.socket.incoming == [] && opcode != KEEPALIVE && |Concat(pieces)| <= 0xffff
    modifies sender, sender.packet, peer, peer.packet, peer.socket
    ensures end.Past? ==> !RunStaysInside(Sizes(old(sender.packet.Length), old(sender.packetPayloadSize), 0), pieces)
    ensures end.Done? ==> RunStaysInside(Sizes(old(sender.packet.Length), old(sender.packetPayloadSize), 0), pieces)
    ensures end.NoMemory? ==> sender.lost
    ensures received.Some? ==> received.value == Concat(pieces)
    ensures end.Done? ==> received.Some? || peer.socket.broken || peer.lost
  {
    hide Concat, RunStaysInside, NextMessage, Sent;
    received := None;
    var data;
    end, data := SendPieces(sender, opcode, pieces);
    if !end.Done? { return; }
    SendReceive(opcode, Concat(pieces));
    peer.socket.incoming := data;
    var size := peer.PacketRecv();
    if size >= 0 {
      received := Some(peer.packet[HEADER..HEADER + size]);
    }
  }
}
