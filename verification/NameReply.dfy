/** Parsing name service replies: `netbios_ns_handle_query` of src/netbios_ns.c (section 4.2.18 of RFC 1002). */
module NameReply {
  import opened Bytes
  import opened Options

  const BUFFER_SIZE: nat := 1500    // RECV_BUFFER_SIZE
  const QUERY_PACKET: nat := 12     // sizeof(netbios_query_packet)
  const NAME_SIZE: nat := 0x20
  const DATA_AT: nat := 56          // QUERY_PACKET + NAME_SIZE + 12
  const FILESERVER: byte := 0x20

  /** What a reply says; names are given by their place in the buffer. */
  datatype Reply = Nothing | NbFrom(ip: nat) | NbstatNames(name: nat, group: Option<nat>)

  /** A record of the name table is 18 octets: name, type, two octets of flags. */
  function RecordAt(i: nat): nat { DATA_AT + 1 + 18 * i }

  /** Section 4.2.18 of RFC 1002: the group bit is the highest of the two flag octets. */
  predicate GroupBit(b: seq<byte>, i: nat)
    requires RecordAt(i) + 18 <= |b|
  {
    b[RecordAt(i) + 16] >= 128
  }

  const GROUP_FLAG: bv16 := 0x8000  // NETBIOS_NAME_FLAG_GROUP

  /** An octet read through a signed `char *` and promoted to `int`. */
  function Promoted(c: byte): bv32
  {
    if c < 128 then c as bv32 else 0xffff_ff00 | (c as bv32)
  }

  /** `uint16_t current_flags = (current_name[16] << 8) | current_name[17]`. */
  function Flags(high: byte, low: byte): bv16
  {
    (((Promoted(high) << 8) | Promoted(low)) & 0xffff) as bv16
  }

  predicate LooksLikeGroup(b: seq<byte>, i: nat)
    requires RecordAt(i) + 18 <= |b|
  {
    Flags(b[RecordAt(i) + 16], b[RecordAt(i) + 17]) & GROUP_FLAG != 0
  }

  lemma TopBit(c: byte)
    ensures c as bv32 < 0x100 && (c >= 128 <==> (c as bv32) & 0x80 != 0)
  {
  }

  lemma PromotedTopBits(high: bv32, low: bv32)
    requires high < 0x100 && low < 0x100
    ensures var x := if high & 0x80 == 0 then high else 0xffff_ff00 | high;
            var y := if low & 0x80 == 0 then low else 0xffff_ff00 | low;
            (((x << 8) | y) & 0xffff) as bv16 & 0x8000 != 0 <==> high & 0x80 != 0 || low & 0x80 != 0
  {
  }

  /** A second octet from 128 on is negative, and its sign sets the group bit. */
  lemma SignSetsGroup(high: byte, low: byte)
    ensures Flags(high, low) & GROUP_FLAG != 0 <==> high >= 128 || low >= 128
  {
    TopBit(high);
    TopBit(low);
    PromotedTopBits(high as bv32, low as bv32);
  }

  /** A record that is no group and that the code takes for one. */
  predicate Misread(b: seq<byte>, i: nat)
    requires RecordAt(i) + 18 <= |b|
  {
    !GroupBit(b, i) && b[RecordAt(i) + 17] >= 128
  }

  /** The code's test is that of the RFC exactly if the record is not misread. */
  lemma GroupTest(b: seq<byte>, i: nat)
    requires RecordAt(i) + 18 <= |b|
    ensures LooksLikeGroup(b, i) <==> GroupBit(b, i) || Misread(b, i)
    ensures LooksLikeGroup(b, i) == GroupBit(b, i) <==> !Misread(b, i)
  {
    SignSetsGroup(b[RecordAt(i) + 16], b[RecordAt(i) + 17]);
  }

  predicate IsFileServer(b: seq<byte>, i: nat)
    requires RecordAt(i) + 18 <= |b|
  {
    b[RecordAt(i) + 15] == FILESERVER
  }

  /** Everything the checks before the name table establish, in the order they are made. */
  predicate Accepted(b: seq<byte>, size: nat, checkTrnId: bool, lastTrnId: nat)
    requires |b| == BUFFER_SIZE
  {
    && size >= QUERY_PACKET
    && (checkTrnId ==> BigEndian(b, 0) == lastTrnId)
    && size >= QUERY_PACKET + 1 && b[QUERY_PACKET] == NAME_SIZE
    && size >= QUERY_PACKET + NAME_SIZE + 11
    && size >= DATA_AT + BigEndian(b, 54)
  }

  function BigEndian(b: seq<byte>, at: nat): nat
    requires at + 2 <= |b|
  {
    var high: int, low: int := b[at], b[at + 1];
    256 * high + low
  }

  function Count(b: seq<byte>): nat requires |b| == BUFFER_SIZE { b[DATA_AT] }
  predicate IsNb(b: seq<byte>) requires |b| == BUFFER_SIZE { b[46] == 0 && b[47] == 0x20 }
  predicate IsNbstat(b: seq<byte>) requires |b| == BUFFER_SIZE { b[46] == 0 && b[47] == 0x21 }

  /**
   The records of an accepted reply end inside the receive buffer. The length check leaves out the
   octet that counts them; the last record still fits, as 1444 is no multiple of 18.
   */
  lemma RecordsInside(size: nat, dataLength: nat, count: nat, i: nat)
    requires DATA_AT + dataLength <= size <= BUFFER_SIZE && 18 * count <= dataLength && i < count
    ensures RecordAt(i) + 18 <= BUFFER_SIZE
  {
    assert 18 * count != 1444;
  }

  /** They can end one octet behind the datagram itself. */
  lemma RecordsBehindDatagram()
    ensures var size, dataLength, count := DATA_AT + 18, 18, 1;
            DATA_AT + dataLength <= size && 18 * count <= dataLength && RecordAt(count - 1) + 18 == size + 1
  {
  }

  /** An entry of the name table as section 4.2.18 lays it out: the name, its type, 16 flag bits. */
  datatype NameRecord = NameRecord(name: seq<byte>, kind: byte, flags: nat)

  function RecordBytes(r: NameRecord): (s: seq<byte>)
    requires |r.name| == 15 && r.flags < TWO16
    ensures |s| == 18
  {
    r.name + [r.kind] + [r.flags / 256, r.flags % 256]
  }

  /** The records stand one behind the other from octet 57 on, and are read as they were laid out. */
  lemma RecordReads(b: seq<byte>, i: nat, r: NameRecord)
    requires |r.name| == 15 && r.flags < TWO16
    requires 57 + 18 * i + 18 <= |b| && b[57 + 18 * i..57 + 18 * i + 18] == RecordBytes(r)
    ensures RecordAt(i) + 18 <= |b| && b[RecordAt(i)..RecordAt(i) + 15] == r.name
    ensures IsFileServer(b, i) <==> r.kind == 0x20
    ensures GroupBit(b, i) <==> r.flags >= 0x8000
    ensures LooksLikeGroup(b, i) <==> r.flags >= 0x8000 || r.flags % 256 >= 128
  {
    hide Flags;
    var s := b[57 + 18 * i..57 + 18 * i + 18];
    assert s[..15] == r.name && s[15] == r.kind && s[16] == r.flags / 256 && s[17] == r.flags % 256;
    assert b[RecordAt(i)..RecordAt(i) + 15] == s[..15];
    GroupTest(b, i);
  }

  /** What a scan of the name table looks for, as the code tests it and as section 4.2.18 says. */
  datatype Scan = CodeGroup | CodeServer | RfcGroup | RfcServer

  predicate Wanted(b: seq<byte>, scan: Scan, i: nat)
    requires RecordAt(i) + 18 <= |b|
  {
    match scan
    case CodeGroup => LooksLikeGroup(b, i)
    case CodeServer => !LooksLikeGroup(b, i) && IsFileServer(b, i)
    case RfcGroup => GroupBit(b, i)
    case RfcServer => !GroupBit(b, i) && IsFileServer(b, i)
  }

  predicate Table(b: seq<byte>, count: nat)
  {
    count > 0 ==> RecordAt(count - 1) + 18 <= |b|
  }

  /** The first record from `i` on that a scan looks for, or the number of records. */
  function FirstWanted(b: seq<byte>, count: nat, scan: Scan, i: nat): (k: nat)
    requires i <= count && Table(b, count)
    ensures i <= k <= count && (k < count ==> Wanted(b, scan, k))
    ensures forall j :: i <= j < k ==> !Wanted(b, scan, j)
    decreases count - i
  {
    if i == count || Wanted(b, scan, i) then i else FirstWanted(b, count, scan, i + 1)
  }

  function PlaceOf(k: nat, count: nat): Option<nat>
  {
    if k < count then Some(RecordAt(k)) else None
  }

  /** What a name table says, for a scan for servers and one for groups. */
  function NamesOf(b: seq<byte>, count: nat, servers: Scan, groups: Scan): (r: Reply)
    requires Table(b, count)
    ensures r.NbstatNames? ==> r.name + 18 <= |b| && (r.group.Some? ==> r.group.value + 18 <= |b|)
  {
    var k := FirstWanted(b, count, servers, 0);
    if k == count then Nothing else NbstatNames(RecordAt(k), PlaceOf(FirstWanted(b, count, groups, 0), count))
  }

  /** What a datagram of `size` octets at the start of the buffer says; none if it is refused. */
  function ParseWith(b: seq<byte>, size: nat, checkTrnId: bool, lastTrnId: nat, recvIp: nat, servers: Scan, groups: Scan):
      (r: Option<Reply>)
    requires |b| == BUFFER_SIZE && size <= BUFFER_SIZE
    ensures r.Some? && r.value.NbstatNames? ==>
              r.value.name + 18 <= |b| && (r.value.group.Some? ==> r.value.group.value + 18 <= |b|)
  {
    var count := Count(b);
    if !Accepted(b, size, checkTrnId, lastTrnId) then None
    else if IsNb(b) then Some(NbFrom(recvIp))
    else if !IsNbstat(b) then Some(Nothing)
    else if BigEndian(b, 54) < 1 || BigEndian(b, 54) < 18 * count then None
    else
      assert Table(b, count) by {
        if count > 0 { RecordsInside(size, BigEndian(b, 54), count, count - 1); }
      }
      Some(NamesOf(b, count, servers, groups))
  }

  /** As the code reads it, and as the RFC has it. */
  function Parse(b: seq<byte>, size: nat, checkTrnId: bool, lastTrnId: nat, recvIp: nat): (r: Option<Reply>)
    requires |b| == BUFFER_SIZE && size <= BUFFER_SIZE
    ensures r.Some? && r.value.NbstatNames? ==>
              r.value.name + 18 <= |b| && (r.value.group.Some? ==> r.value.group.value + 18 <= |b|)
  {
    ParseWith(b, size, checkTrnId, lastTrnId, recvIp, CodeServer, CodeGroup)
  }

  function RfcParse(b: seq<byte>, size: nat, checkTrnId: bool, lastTrnId: nat, recvIp: nat): Option<Reply>
    requires |b| == BUFFER_SIZE && size <= BUFFER_SIZE
  {
    ParseWith(b, size, checkTrnId, lastTrnId, recvIp, RfcServer, RfcGroup)
  }

  /** The record types of section 4.2.1.3 of RFC 1002: NB is 0x0020, NBSTAT is 0x0021. */
  lemma ReplyTypes(b: seq<byte>)
    requires |b| == BUFFER_SIZE
    ensures IsNb(b) <==> BigEndian(b, 46) == 0x0020
    ensures IsNbstat(b) <==> BigEndian(b, 46) == 0x0021
  {
  }

  /** A positive name query response with one address entry. */
  function NbReply(): (b: seq<byte>)
    ensures |b| == BUFFER_SIZE
  {
    seq(BUFFER_SIZE, i => if i == 12 || i == 47 then 0x20 else if i == 49 then 1 else if i == 55 then 6 else 0)
  }

  lemma NbExample(ip: nat)
    ensures Parse(NbReply(), 62, false, 0, ip) == Some(NbFrom(ip))
    ensures Parse(NbReply(), 61, false, 0, ip) == None
  {
    assert BigEndian(NbReply(), 54) == 6;
  }

  lemma FirstUnique(b: seq<byte>, count: nat, scan: Scan, k: nat)
    requires Table(b, count) && k <= count
    requires k < count ==> Wanted(b, scan, k)
    requires forall j :: 0 <= j < k ==> !Wanted(b, scan, j)
    ensures k == FirstWanted(b, count, scan, 0)
  {
    assert FirstWanted(b, count, scan, 0) >= k;
  }

  /** The scan for groups stops too early exactly if the record it stops at is misread. */
  lemma GroupScan(b: seq<byte>, count: nat)
    requires Table(b, count)
    ensures var k := FirstWanted(b, count, CodeGroup, 0);
            FirstWanted(b, count, RfcGroup, 0) == k <==> !(k < count && Misread(b, k))
  {
    var k := FirstWanted(b, count, CodeGroup, 0);
    forall j | 0 <= j < k ensures !Wanted(b, RfcGroup, j) {
      assert !Wanted(b, CodeGroup, j);
      GroupTest(b, j);
    }
    if k < count { GroupTest(b, k); }
    if !(k < count && Misread(b, k)) { FirstUnique(b, count, RfcGroup, k); }
  }

  /** The scan for servers goes too far exactly if the record it should stop at is misread. */
  lemma ServerScan(b: seq<byte>, count: nat)
    requires Table(b, count)
    ensures var k := FirstWanted(b, count, RfcServer, 0);
            && (FirstWanted(b, count, CodeServer, 0) == k <==> !(k < count && Misread(b, k)))
            && k <= FirstWanted(b, count, CodeServer, 0)
  {
    var k := FirstWanted(b, count, RfcServer, 0);
    forall j | 0 <= j < k ensures !Wanted(b, CodeServer, j) {
      assert !Wanted(b, RfcServer, j);
      GroupTest(b, j);
    }
    if k < count { GroupTest(b, k); }
    if !(k < count && Misread(b, k)) { FirstUnique(b, count, CodeServer, k); }
  }

  /** The records the two scans turn on are not misread; without a server the groups do not matter. */
  predicate ReadAsMeant(b: seq<byte>, count: nat)
    requires Table(b, count)
  {
    var server, group := FirstWanted(b, count, RfcServer, 0), FirstWanted(b, count, CodeGroup, 0);
    server == count || (!Misread(b, server) && (group == count || !Misread(b, group)))
  }

  lemma NamesAsMeant(b: seq<byte>, count: nat)
    requires Table(b, count)
    ensures NamesOf(b, count, CodeServer, CodeGroup) == NamesOf(b, count, RfcServer, RfcGroup) <==> ReadAsMeant(b, count)
  {
    hide Misread;
    GroupScan(b, count);
    ServerScan(b, count);
  }

  /**
   The parser selects the group and the server that section 4.2.18 of RFC 1002 makes the first ones
   exactly if no record that decides one of its scans has a clear group bit and a second flag octet
   from 128 on.
   */
  lemma ParseAsMeant(b: seq<byte>, size: nat, checkTrnId: bool, lastTrnId: nat, recvIp: nat)
    requires |b| == BUFFER_SIZE && size <= BUFFER_SIZE
    requires IsNbstat(b) && Parse(b, size, checkTrnId, lastTrnId, recvIp).Some?
    ensures Table(b, Count(b))
    ensures Parse(b, size, checkTrnId, lastTrnId, recvIp) == RfcParse(b, size, checkTrnId, lastTrnId, recvIp)
            <==> ReadAsMeant(b, Count(b))
  {
    hide NamesOf, ReadAsMeant;
    var count := Count(b);
    if count > 0 { RecordsInside(size, BigEndian(b, 54), count, count - 1); }
    NamesAsMeant(b, count);
  }

  /** A reply with two file servers, the first with an odd second flag octet. */
  function OddReply(): (b: seq<byte>)
    ensures |b| == BUFFER_SIZE
  {
    seq(BUFFER_SIZE, i => if i == 12 then 0x20 else if i == 47 then 0x21 else if i == 55 then 37 else if i == 56 then 2
                          else if i == 72 || i == 90 then 0x20 else if i == 74 then 0x80 else 0)
  }

  /** The code takes its first server for a group, and names the second. */
  lemma ParseExample()
    ensures Parse(OddReply(), 93, false, 0, 1) == Some(NbstatNames(75, Some(57)))
    ensures RfcParse(OddReply(), 93, false, 0, 1) == Some(NbstatNames(57, None))
  {
    hide Flags;
    var b := OddReply();
    assert Count(b) == 2 && IsNbstat(b) && BigEndian(b, 54) == 37 && Accepted(b, 93, false, 0);
    assert RecordAt(0) == 57 && RecordAt(1) == 75;
    GroupTest(b, 0);
    GroupTest(b, 1);
    FirstUnique(b, 2, CodeServer, 1);
    FirstUnique(b, 2, CodeGroup, 0);
    FirstUnique(b, 2, RfcServer, 0);
    FirstUnique(b, 2, RfcGroup, 2);
  }

  /** `netbios_ns_handle_query` with a place for the result. */
  method HandleQuery(buffer: array<byte>, size: nat, checkTrnId: bool, lastTrnId: nat, recvIp: nat)
      returns (ok: bool, reply: Reply)
    requires buffer.Length == BUFFER_SIZE && size <= BUFFER_SIZE
    ensures ok ==> Accepted(buffer[..], size, checkTrnId, lastTrnId)
    ensures !ok ==> reply == Nothing
    ensures Accepted(buffer[..], size, checkTrnId, lastTrnId) ==>
              var b, n := buffer[..], BigEndian(buffer[..], 54);
              if IsNb(b) then ok && reply == NbFrom(recvIp)
              else if !IsNbstat(b) then ok && reply == Nothing
              else (ok <==> n >= 1 && n >= 18 * Count(b))
    ensures ok && IsNbstat(buffer[..]) ==> Selected(buffer[..], Count(buffer[..]), reply)
    ensures Parse(buffer[..], size, checkTrnId, lastTrnId, recvIp) == if ok then Some(reply) else None
  {
    hide FirstWanted, Wanted;
    reply := Nothing;
    if size < QUERY_PACKET { return false, Nothing; }
    if checkTrnId && BigEndian(buffer[..], 0) != lastTrnId { return false, Nothing; }
    if size < QUERY_PACKET + 1 { return false, Nothing; }
    var nameSize := buffer[QUERY_PACKET];
    if nameSize != NAME_SIZE { return false, Nothing; }
    if size < QUERY_PACKET + nameSize + 11 { return false, Nothing; }
    var dataLength := BigEndian(buffer[..], QUERY_PACKET + nameSize + 10);
    if size < QUERY_PACKET + nameSize + 12 + dataLength { return false, Nothing; }
    if IsNb(buffer[..]) {
      return true, NbFrom(recvIp);
    } else if IsNbstat(buffer[..]) {
      if dataLength < 1 { return false, Nothing; }
      var count: nat := buffer[DATA_AT];
      if dataLength < 18 * count { return false, Nothing; }
      if count > 0 { RecordsInside(size, dataLength, count, count - 1); }
      reply := SelectNames(buffer, count);
      SelectedNames(buffer[..], count);
    }
    ok := true;
  }

  /** The first group and the first file server that is no group, as the code tests it; nothing without a server. */
  ghost predicate Selected(b: seq<byte>, count: nat, reply: Reply)
  {
    && Table(b, count)
    && match reply
       case Nothing => forall i :: 0 <= i < count ==> !Wanted(b, CodeServer, i)
       case NbFrom(_) => false
       case NbstatNames(name, group) =>
         && (exists k :: 0 <= k < count && First(b, CodeServer, k) && name == RecordAt(k))
         && (if group.None? then forall i :: 0 <= i < count ==> !Wanted(b, CodeGroup, i)
             else exists k :: 0 <= k < count && First(b, CodeGroup, k) && group.value == RecordAt(k))
  }

  ghost predicate First(b: seq<byte>, scan: Scan, k: nat)
    requires RecordAt(k) + 18 <= |b|
  {
    Wanted(b, scan, k) && forall i :: 0 <= i < k ==> !Wanted(b, scan, i)
  }

  lemma SelectedNames(b: seq<byte>, count: nat)
    requires Table(b, count)
    ensures Selected(b, count, NamesOf(b, count, CodeServer, CodeGroup))
  {
    hide Wanted;
    var server, group := FirstWanted(b, count, CodeServer, 0), FirstWanted(b, count, CodeGroup, 0);
    assert server < count ==> First(b, CodeServer, server);
    assert group < count ==> First(b, CodeGroup, group);
  }

  /** The two scans of the name table. */
  method SelectNames(buffer: array<byte>, count: nat) returns (reply: Reply)
    requires buffer.Length == BUFFER_SIZE && Table(buffer[..], count)
    ensures reply == NamesOf(buffer[..], count, CodeServer, CodeGroup)
  {
    hide FirstWanted, Flags;
    var group: Option<nat> := None;
    var i := 0;
    while i < count
      invariant 0 <= i <= count && group == None
      invariant forall j :: 0 <= j < i ==> !Wanted(buffer[..], CodeGroup, j)
    {
      var at := RecordAt(i);
      if Flags(buffer[at + 16], buffer[at + 17]) & GROUP_FLAG != 0 {
        group := Some(at);
        break;
      }
      i := i + 1;
    }
    FirstUnique(buffer[..], count, CodeGroup, i);
    var k := 0;
    while k < count
      invariant 0 <= k <= count
      invariant forall j :: 0 <= j < k ==> !Wanted(buffer[..], CodeServer, j)
    {
      var at := RecordAt(k);
      if !(Flags(buffer[at + 16], buffer[at + 17]) & GROUP_FLAG != 0) && buffer[at + 15] == FILESERVER {
        FirstUnique(buffer[..], count, CodeServer, k);
        return NbstatNames(at, group);
      }
      k := k + 1;
    }
    FirstUnique(buffer[..], count, CodeServer, k);
    reply := Nothing;
  }
}
