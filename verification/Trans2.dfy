/** Reassembly of TRANS2 replies: `smb_tr2_recv` of src/smb_trans2.c (section 2.2.4.46.2 of [MS-CIFS]). */
module Trans2 {
  import opened Bytes
  import opened SmbMessage

  // --- one reply message, behind the SMB header --------------------------------------------------

  const RESP_SIZE: nat := 24  // sizeof(smb_trans2_resp)

  predicate HasHeader(p: seq<byte>) { |p| >= RESP_SIZE }

  /** The data a message announces is in it. */
  predicate WellSized(p: seq<byte>)
  {
    HasHeader(p) && RESP_SIZE + Count16(p, 13) <= |p|
  }

  function Count16(p: seq<byte>, at: nat): (n: nat)
    requires at + 2 <= |p|
    ensures n < 0x1_0000
  {
    FieldBound(p, at, 2);
    assert Pow256(2) == 0x1_0000;
    Field(p, at, 2)
  }

  function TotalCount(p: seq<byte>): nat requires HasHeader(p) { Count16(p, 3) }
  function DataCount(p: seq<byte>): nat requires HasHeader(p) { Count16(p, 13) }
  function Displacement(p: seq<byte>): nat requires HasHeader(p) { Count16(p, 17) }

  /** The data of a message, which the code takes from right behind the parameter block. */
  function Data(p: seq<byte>): (d: seq<byte>)
    requires WellSized(p)
    ensures |d| == DataCount(p)
  {
    p[RESP_SIZE..RESP_SIZE + DataCount(p)]
  }

  /** What is still missing after a message, by its own account. */
  function Remaining(p: seq<byte>): int
    requires HasHeader(p)
  {
    TotalCount(p) - (Displacement(p) + DataCount(p))
  }

  // --- what the loop gathers ----------------------------------------------------------------------

  /** Replies as `smb_session_recv_msg` yields them, in packets of 17-bit length; the empty one is a failure. */
  predicate Receivable(replies: seq<seq<byte>>)
  {
    forall p :: p in replies ==> |p| < 0x2_0000
  }

  /** The contents and size of the buffer, and whether an append had to enlarge it. */
  datatype Collected = Collected(written: seq<byte>, payloadSize: nat, grew: bool)

  function Collect(remaining: int, written: seq<byte>, payloadSize: nat, replies: seq<seq<byte>>): Collected
    decreases |replies|
  {
    if remaining <= 0 || replies == [] || !WellSized(replies[0]) then Collected(written, payloadSize, false)
    else
      var p := replies[0];
      var size := SizeAfter(payloadSize, |written|, DataCount(p));
      var rest := Collect(Remaining(p), written + Data(p), size, replies[1..]);
      rest.(grew := rest.grew || MustGrow(payloadSize, |written|, DataCount(p)))
  }

  /** How many replies the loop takes. */
  function Taken(remaining: int, replies: seq<seq<byte>>): (n: nat)
    ensures n <= |replies|
    decreases |replies|
  {
    if remaining <= 0 || replies == [] then 0
    else if !WellSized(replies[0]) then 1
    else 1 + Taken(Remaining(replies[0]), replies[1..])
  }

  /** The loop takes a reply that is shorter than its own count, and reads behind it. */
  predicate ReadsBehind(remaining: int, replies: seq<seq<byte>>)
    decreases |replies|
  {
    && remaining > 0 && replies != [] && replies[0] != []
    && (!WellSized(replies[0]) || ReadsBehind(Remaining(replies[0]), replies[1..]))
  }

  /** The first message fixes the size of the buffer, by a difference that should not be negative. */
  predicate Started(replies: seq<seq<byte>>)
  {
    replies != [] && HasHeader(replies[0]) && DataCount(replies[0]) <= TotalCount(replies[0])
  }

  /** A difference so far below zero that no memory is that large. */
  predicate Refused(p: seq<byte>)
    requires HasHeader(p)
  {
    Copied(|p|) + TotalCount(p) < DataCount(p)
  }

  /**
   The copy of the first message stays inside its memory exactly if it does not announce more data
   than the total, or so much more that the allocation fails; if it is well sized, exactly in the
   first case.
   */
  lemma FirstCopyStaysInside(p: seq<byte>)
    requires HasHeader(p) && |p| < 0x2_0000
    ensures Copied(|p|) <= Allocated(|p|, Wrap(TotalCount(p) - DataCount(p))) <==> DataCount(p) <= TotalCount(p) || Refused(p)
    ensures Refused(p) <==> Allocated(|p|, Wrap(TotalCount(p) - DataCount(p))) >= TWO63
    ensures WellSized(p) ==> !Refused(p)
  {
    hide Wrap, Count16;
    GrowStaysInside(|p|, TotalCount(p) - DataCount(p));
  }

  /** A message of 34 octets that announces ten octets of data and a total of two. */
  function ShortTotal(): (p: seq<byte>)
    ensures |p| == 34
  {
    seq(34, i => if i == 3 then 2 else if i == 13 then 10 else 0)
  }

  /** The code copies its 34 octets, and the header, into memory for 26. */
  lemma FirstCopyExample()
    ensures WellSized(ShortTotal())
    ensures Copied(34) == HEADER_SIZE + 34
    ensures Allocated(34, Wrap(TotalCount(ShortTotal()) - DataCount(ShortTotal()))) == HEADER_SIZE + 26
  {
    var p := ShortTotal();
    assert p[3..5] == [2, 0] && p[13..15] == [10, 0];
    TwoOctets(2);
    TwoOctets(10);
    GrowStaysInside(34, 2 - 10);
  }

  lemma TwoOctets(n: byte)
    ensures FromLittleEndian([n, 0]) == n
  {
    assert [n, 0][1..] == [0] && [0][1..] == [];
    assert FromLittleEndian([0]) == 0;
  }

  function Reassemble(replies: seq<seq<byte>>): Collected
    requires Started(replies)
  {
    var first := replies[0];
    Collect(Remaining(first), first, |first| + (TotalCount(first) - DataCount(first)), replies[1..])
  }

  // --- a reply split into fragments ----------------------------------------------------------------

  /** Non-empty fragments in order, each where the ones before it end, together the announced total. */
  predicate InOrder(fragments: seq<seq<byte>>, displacement: nat, total: nat)
    decreases |fragments|
  {
    if fragments == [] then displacement == total
    else
      var p := fragments[0];
      && p != [] && WellSized(p)
      && DataCount(p) > 0 && TotalCount(p) == total && Displacement(p) == displacement
      && InOrder(fragments[1..], displacement + DataCount(p), total)
  }

  function AllData(fragments: seq<seq<byte>>): seq<byte>
  {
    if fragments == [] then []
    else (if WellSized(fragments[0]) then Data(fragments[0]) else []) + AllData(fragments[1..])
  }

  lemma {:induction false} InOrderLength(fragments: seq<seq<byte>>, displacement: nat, total: nat)
    requires InOrder(fragments, displacement, total)
    ensures |AllData(fragments)| == total - displacement
    decreases |fragments|
  {
    if fragments != [] {
      InOrderLength(fragments[1..], displacement + DataCount(fragments[0]), total);
    }
  }

  /** The buffer sized by the first message takes every fragment without growing, and is full at the end. */
  lemma {:induction false} CollectInOrder(remaining: int, written: seq<byte>, payloadSize: nat,
      fragments: seq<seq<byte>>, more: seq<seq<byte>>, displacement: nat, total: nat)
    requires InOrder(fragments, displacement, total) && remaining == total - displacement
    requires payloadSize == |written| + remaining && payloadSize < TWO63
    ensures Collect(remaining, written, payloadSize, fragments + more)
         == Collected(written + AllData(fragments), payloadSize, false)
    ensures Taken(remaining, fragments + more) == |fragments| && !ReadsBehind(remaining, fragments + more)
    decreases |fragments|
  {
    hide Data, Count16, SizeAfter, MustGrow;
    if fragments == [] {
      assert written + [] == written;
    } else {
      var p, rest := fragments[0], fragments[1..];
      var next := displacement + DataCount(p);
      InOrderLength(rest, next, total);
      assert (fragments + more)[0] == p && (fragments + more)[1..] == rest + more;
      FitsWithoutGrowth(payloadSize, |written|, DataCount(p));
      CollectInOrder(total - next, written + Data(p), payloadSize, rest, more, next, total);
      assert (written + Data(p)) + AllData(rest) == written + AllData(fragments);
    }
  }

  lemma FitsWithoutGrowth(payloadSize: nat, cursor: nat, dataSize: nat)
    requires 0 < dataSize && cursor + dataSize <= payloadSize < TWO63
    ensures !MustGrow(payloadSize, cursor, dataSize) && SizeAfter(payloadSize, cursor, dataSize) == payloadSize
  {
    GrowthLeavesSlack(payloadSize, cursor, dataSize);
  }

  /**
   A reply split into any number of fragments: the call takes exactly those messages, nothing is
   reallocated, and the full buffer holds the first message followed by the later data.
   */
  lemma ReassemblyIsExact(first: seq<byte>, fragments: seq<seq<byte>>, more: seq<seq<byte>>)
    requires |first| < 0x2_0000 && HasHeader(first) && Displacement(first) == 0
    requires InOrder(fragments, DataCount(first), TotalCount(first))
    ensures Started([first] + (fragments + more))
    ensures var all := AllData(fragments);
            Reassemble([first] + (fragments + more)) == Collected(first + all, |first| + |all|, false)
    ensures Taken(Remaining(first), fragments + more) == |fragments| && !ReadsBehind(Remaining(first), fragments + more)
  {
    var total, n := TotalCount(first), DataCount(first);
    InOrderLength(fragments, n, total);
    assert ([first] + (fragments + more))[1..] == fragments + more;
    CollectInOrder(total - n, first, |first| + (total - n), fragments, more, n, total);
  }

  // --- messages as a server lays them out -----------------------------------------------------------

  /** The fixed part of a TRANS2 response, field by field. */
  datatype Fields = Fields(wordCount: byte, totalParams: nat, totalData: nat, reserved: nat, params: nat, paramOffset: nat,
                           paramDisplacement: nat, dataCount: nat, dataOffset: nat, dataDisplacement: nat,
                           setupCount: byte, reserved2: byte, byteCount: nat, padding: byte)

  function FieldsBytes(h: Fields): (r: seq<byte>)
    ensures |r| == RESP_SIZE
  {
    [h.wordCount] + (Le16(h.totalParams) + Le16(h.totalData) + Le16(h.reserved))
    + (Le16(h.params) + Le16(h.paramOffset) + Le16(h.paramDisplacement))
    + (Le16(h.dataCount) + Le16(h.dataOffset) + Le16(h.dataDisplacement))
    + [h.setupCount, h.reserved2] + Le16(h.byteCount) + [h.padding]
  }

  lemma FieldsLayout(h: Fields, body: seq<byte>)
    ensures var p := FieldsBytes(h) + body;
            && p[3..5] == Le16(h.totalData) && p[13..15] == Le16(h.dataCount) && p[17..19] == Le16(h.dataDisplacement)
            && p[RESP_SIZE..] == body
  {
    hide Le16;
  }

  lemma Count16Reads(p: seq<byte>, at: nat, n: nat)
    requires at + 2 <= |p| && p[at..at + 2] == Le16(n) && n < TWO16
    ensures Count16(p, at) == n
  {
    hide LittleEndian, FromLittleEndian;
    LittleEndianRoundTrip(n, 2);
    assert Pow256(2) == TWO16;
  }

  /** The counts the code goes by are the fields of those names, and the data is what follows them. */
  lemma FieldsRead(h: Fields, body: seq<byte>)
    requires h.totalData < TWO16 && h.dataCount < TWO16 && h.dataDisplacement < TWO16
    ensures var p := FieldsBytes(h) + body;
            && HasHeader(p) && TotalCount(p) == h.totalData && DataCount(p) == h.dataCount
            && Displacement(p) == h.dataDisplacement
            && (WellSized(p) <==> h.dataCount <= |body|)
            && (WellSized(p) ==> Data(p) == body[..h.dataCount])
  {
    hide Le16, FieldsBytes, Count16;
    var p := FieldsBytes(h) + body;
    FieldsLayout(h, body);
    Count16Reads(p, 3, h.totalData);
    Count16Reads(p, 13, h.dataCount);
    Count16Reads(p, 17, h.dataDisplacement);
    if WellSized(p) { assert p[RESP_SIZE..RESP_SIZE + h.dataCount] == p[RESP_SIZE..][..h.dataCount]; }
  }

  /** A message that continues a reply: data and whatever may stand behind it. */
  datatype Fragment = Fragment(fields: Fields, data: seq<byte>, trailing: seq<byte>)

  function FragmentBytes(f: Fragment): seq<byte>
  {
    FieldsBytes(f.fields) + (f.data + f.trailing)
  }

  function AllBytes(fs: seq<Fragment>): (r: seq<seq<byte>>)
    ensures |r| == |fs| && forall i :: 0 <= i < |r| ==> r[i] == FragmentBytes(fs[i])
  {
    seq(|fs|, i requires 0 <= i < |fs| => FragmentBytes(fs[i]))
  }

  function JoinedData(fs: seq<Fragment>): seq<byte>
  {
    if fs == [] then [] else fs[0].data + JoinedData(fs[1..])
  }

  /** Each fragment is displaced by the data before it, and together they reach the total. */
  predicate Follow(fs: seq<Fragment>, displacement: nat, total: nat)
    decreases |fs|
  {
    if fs == [] then displacement == total
    else
      var h := fs[0].fields;
      && fs[0].data != [] && h.dataCount == |fs[0].data| && h.totalData == total && h.dataDisplacement == displacement
      && Follow(fs[1..], displacement + |fs[0].data|, total)
  }

  lemma {:induction false} FollowIsInOrder(fs: seq<Fragment>, displacement: nat, total: nat)
    requires Follow(fs, displacement, total) && total < TWO16
    ensures displacement <= total
    ensures InOrder(AllBytes(fs), displacement, total) && AllData(AllBytes(fs)) == JoinedData(fs)
    decreases |fs|
  {
    hide FieldsBytes, WellSized, HasHeader, DataCount, TotalCount, Displacement, Data;
    if fs != [] {
      var f := fs[0];
      FollowIsInOrder(fs[1..], displacement + |f.data|, total);
      FieldsRead(f.fields, f.data + f.trailing);
      assert (f.data + f.trailing)[..|f.data|] == f.data;
      assert AllBytes(fs)[1..] == AllBytes(fs[1..]) && AllBytes(fs)[0] == FragmentBytes(f);
      FragmentIsWellSized(f);
    }
  }

  lemma FragmentIsWellSized(f: Fragment)
    requires f.fields.dataCount == |f.data| && f.fields.totalData < TWO16 && f.fields.dataCount < TWO16
    requires f.fields.dataDisplacement < TWO16
    ensures WellSized(FragmentBytes(f)) && FragmentBytes(f) != []
  {
    hide FieldsBytes, Count16;
    FieldsRead(f.fields, f.data + f.trailing);
  }

  /** The first message of a reply: parameters, and a first part of the data that may be empty. */
  datatype Opening = Opening(fields: Fields, params: seq<byte>, data: seq<byte>)

  function OpeningBytes(o: Opening): seq<byte>
  {
    FieldsBytes(o.fields) + (o.params + o.data)
  }

  predicate Opens(o: Opening, fs: seq<Fragment>)
  {
    && |o.params| + |o.data| + RESP_SIZE < 0x2_0000
    && o.fields.dataCount == |o.data| && o.fields.dataDisplacement == 0 && o.fields.totalData < TWO16
    && Follow(fs, |o.data|, o.fields.totalData)
  }

  /**
   The reply of a server that lays its messages out field by field, with displacements 0, n1, n1 + n2
   and so on: exactly its messages are taken, and the buffer is the fixed part of the first one, the
   parameters and all of the data.
   */
  lemma ReassembledReply(o: Opening, fs: seq<Fragment>, more: seq<seq<byte>>)
    requires Opens(o, fs)
    ensures var replies := [OpeningBytes(o)] + (AllBytes(fs) + more);
            var whole := FieldsBytes(o.fields) + (o.params + (o.data + JoinedData(fs)));
            && Started(replies) && Reassemble(replies) == Collected(whole, |whole|, false)
            && Taken(Remaining(OpeningBytes(o)), AllBytes(fs) + more) == |fs|
            && !ReadsBehind(Remaining(OpeningBytes(o)), AllBytes(fs) + more)
  {
    hide FieldsBytes, InOrder, AllData, Reassemble, Taken, ReadsBehind, Started, Remaining, DataCount, TotalCount, Displacement;
    FollowIsInOrder(fs, |o.data|, o.fields.totalData);
    FieldsRead(o.fields, o.params + o.data);
    ReassemblyIsExact(OpeningBytes(o), AllBytes(fs), more);
    assert OpeningBytes(o) + JoinedData(fs) == FieldsBytes(o.fields) + (o.params + (o.data + JoinedData(fs)));
  }

  // --- the code -----------------------------------------------------------------------------------

  /** The incoming side of a session. */
  class Replies {
    var pending: seq<seq<byte>>

    /** `smb_session_recv_msg`; the empty message stands for its failure. */
    method Recv() returns (p: seq<byte>)
      modifies this
      ensures old(pending) == [] ==> p == [] && pending == []
      ensures old(pending) != [] ==> p == old(pending)[0] && pending == old(pending)[1..]
    {
      if pending == [] { return []; }
      p, pending := pending[0], pending[1..];
    }
  }

  /**
   `smb_tr2_recv`. `dropped` says that an append got no memory; `past` that the code reads behind a
   message, or writes behind its copy of the first one, where the model stops.
   */
  method Tr2Recv(s: Replies) returns (res: Message?, dropped: bool, past: bool)
    requires Receivable(s.pending)
    modifies s
    ensures old(s.pending) == [] || old(s.pending)[0] == [] ==> res == null && !past
    ensures old(s.pending) != [] && old(s.pending)[0] != [] ==>
              var first, rest := old(s.pending)[0], old(s.pending)[1..];
              && (past <==> !HasHeader(first) || (DataCount(first) > TotalCount(first) && !Refused(first))
                            || (Started(old(s.pending)) && ReadsBehind(Remaining(first), rest)))
              && (res == null <==> past || !Started(old(s.pending)))
              && s.pending == if Started(old(s.pending)) then rest[Taken(Remaining(first), rest)..] else rest
    ensures old(s.pending) == [] ==> s.pending == []
    ensures old(s.pending) != [] && old(s.pending)[0] == [] ==> s.pending == old(s.pending)[1..]
    ensures res != null ==> fresh(res) && fresh(res.payload) && res.Valid()
    ensures dropped ==> Started(old(s.pending)) && Reassemble(old(s.pending)).grew
    ensures res != null && !dropped ==> Reassemble(old(s.pending)).written == res.Written()
                                        && Reassemble(old(s.pending)).payloadSize == res.payloadSize
  {
    hide MustGrow, SizeAfter, Count16;
    dropped, past, res := false, false, null;
    var recv := s.Recv();
    if recv == [] { return; }
    if |recv| < RESP_SIZE { past := true; return; }
    FirstCopyStaysInside(recv);
    GrowStaysInside(|recv|, TotalCount(recv) - DataCount(recv));
    var end;
    end, res := Grow(recv, |recv|, Wrap(TotalCount(recv) - DataCount(recv)));
    if res == null { past := end.Past?; return; }
    assert Started(old(s.pending));
    WrapSum(|recv|, TotalCount(recv) - DataCount(recv));
    res, dropped, past := Gather(s, recv, res, old(s.pending));
  }

  /** The loop of `smb_tr2_recv`. */
  method Gather(s: Replies, first: seq<byte>, copy: Message, ghost all: seq<seq<byte>>)
      returns (res: Message?, dropped: bool, past: bool)
    requires Started(all) && all[0] == first && s.pending == all[1..]
    requires copy.Valid() && copy.Written() == first
    requires copy.payloadSize == |first| + (TotalCount(first) - DataCount(first))
    modifies s, copy, copy.payload
    ensures res == if past then null else copy
    ensures past <==> ReadsBehind(Remaining(first), all[1..])
    ensures s.pending == all[1..][Taken(Remaining(first), all[1..])..]
    ensures copy.Valid() && (copy.payload == old(copy.payload) || fresh(copy.payload))
    ensures dropped ==> Reassemble(all).grew
    ensures !past && !dropped ==> Reassemble(all).written == copy.Written() && Reassemble(all).payloadSize == copy.payloadSize
  {
    hide MustGrow, SizeAfter, Count16;
    dropped, past, res := false, false, copy;
    var remaining := Remaining(first);
    ghost var rest, goal, n := all[1..], Reassemble(all), 0;
    while remaining > 0
      invariant copy.Valid() && (copy.payload == old(copy.payload) || fresh(copy.payload))
      invariant n <= |rest| && s.pending == rest[n..]
      invariant n + Taken(remaining, s.pending) == Taken(Remaining(first), rest)
      invariant ReadsBehind(remaining, s.pending) == ReadsBehind(Remaining(first), rest)
      invariant dropped ==> goal.grew
      invariant !dropped ==> var c := Collect(remaining, copy.Written(), copy.payloadSize, s.pending);
                             c.written == goal.written && c.payloadSize == goal.payloadSize && (c.grew ==> goal.grew)
      decreases |s.pending|, remaining
    {
      ghost var before := s.pending;
      var recv := s.Recv();
      if before != [] {
        assert before[1..] == rest[n + 1..];
        n := n + 1;
      }
      remaining := 0;
      if recv != [] {
        if !WellSized(recv) { return null, dropped, true; }
        var ok := copy.Append(Data(recv));
        dropped := dropped || !ok;
        remaining := Remaining(recv);
      }
    }
  }
}
