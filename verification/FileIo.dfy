/** Reading, writing and seeking on open files: src/smb_file.c. */
module FileIo {
  import opened Bytes
  import opened FileTable
  import opened HandleList
  import opened Memory

  /** `whence` of a seek; any other value leaves the offset alone. */
  datatype Whence = Set | Cur | Other

  // --- requests -----------------------------------------------------------------------------------

  /** The two halves of a 64-bit offset, as the read and write requests carry them. */
  function Low(offset: int): nat { offset % TWO32 }
  function High(offset: int): nat { offset / TWO32 % TWO32 }

  /** The offset a server makes of them is the one in the table exactly if that is not negative. */
  lemma HalvesRecombine(offset: int)
    requires 0 <= offset + TWO63 && offset < TWO63
    ensures Low(offset) + TWO32 * High(offset) == offset % TWO64
    ensures Low(offset) + TWO32 * High(offset) == offset <==> offset >= 0
  {
  }

  /** Where a server reads or writes for the two halves of an offset. */
  function Place(offset: int): nat { Low(offset) + TWO32 * High(offset) }

  lemma PlaceIsOffset(offset: int)
    requires 0 <= offset < TWO63
    ensures Place(offset) == offset
  {
    HalvesRecombine(offset);
  }

  const SMB_PACKET: nat := 32     // sizeof(smb_packet)
  const WRITE_REQ: nat := 32      // sizeof(smb_write_req)

  function MaxRead(bufSize: nat): nat
  {
    if 0xffff < bufSize then 0xffff else bufSize
  }

  /** A request asks for exactly what the buffer and the 16-bit count field both allow. */
  lemma ReadAsksForAll(bufSize: nat, n: nat)
    ensures n <= MaxRead(bufSize) <==> n <= bufSize && n < TWO16
  {
  }

  /** `uint16_t max_write`, for any size of the caller's buffer. */
  function MaxWrite(bufSize: nat): nat
  {
    var most := 0xffff - SMB_PACKET - WRITE_REQ;
    if most < bufSize then most else bufSize % 0x1_0000
  }

  /** No write request is longer than a session packet can carry, and no octet is lost to the cast. */
  lemma WriteFitsPacket(bufSize: nat)
    ensures SMB_PACKET + WRITE_REQ + MaxWrite(bufSize) <= 0xffff
    ensures MaxWrite(bufSize) <= bufSize
    ensures MaxWrite(bufSize) == bufSize <==> SMB_PACKET + WRITE_REQ + bufSize <= 0xffff
  {
  }

  // --- the server -----------------------------------------------------------------------------------

  /** `data` is what a file holds at `at`; beyond the end it holds nothing. */
  predicate IsSlice(content: seq<byte>, data: seq<byte>, at: nat)
  {
    data == [] || (at + |data| <= |content| && data == content[at..at + |data|])
  }

  /** A file after `data` has been written at `at`; a gap behind its old end reads as zeros. */
  function Patched(content: seq<byte>, at: nat, data: seq<byte>): seq<byte>
  {
    if data == [] then content
    else
      var missing := at + |data| - |content|;
      Overwrite(if missing > 0 then content + Fill(0, missing) else content, at, data)
  }

  /** The server answers a read with at most the requested octets from the requested place. */
  method ServeRead(content: seq<byte>, low: nat, high: nat, max: nat) returns (data: seq<byte>)
    ensures |data| <= max && IsSlice(content, data, low + TWO32 * high)
  {
    var at := low + TWO32 * high;
    if at >= |content| { return []; }
    var n :| 0 <= n <= max && at + n <= |content|;
    data := content[at..at + n];
  }

  /** It stores as much of a write as it likes, from the front, and says how much. */
  method ServeWrite(content: seq<byte>, low: nat, high: nat, data: seq<byte>) returns (after: seq<byte>, count: nat)
    ensures count <= |data| && after == Patched(content, low + TWO32 * high, data[..count])
  {
    count :| 0 <= count <= |data|;
    after := Patched(content, low + TWO32 * high, data[..count]);
  }

  // --- operations -----------------------------------------------------------------------------------

  /** The open file a descriptor designates in a session. */
  ghost function Designated(s: Session, fd: nat): OpenFile?
    requires s.Valid()
    reads s, s.repr
  {
    var files := s.Files(TidOf(fd));
    var k := First(Keys(files), FidOf(fd), 0);
    if k < |files| then files[k].value else null
  }

  /** The offset that remains after a seek. */
  function Sought(at: int, offset: int, whence: Whence): int
  {
    match whence
    case Set => offset
    case Cur => at + offset
    case Other => at
  }

  method Fseek(s: Session, fd: nat, offset: int, whence: Whence) returns (r: int)
    requires s.Valid()
    modifies Target(s, fd)
    ensures s.Valid() && Designated(s, fd) == old(Designated(s, fd))
    ensures var f := Designated(s, fd);
            if f == null then r == -1 else f.offset == r == Sought(old(f.offset), offset, whence)
  {
    hide First;
    var file := s.FileGet(fd);
    if file == null { return -1; }
    file.offset := if whence.Set? then offset else if whence.Cur? then file.offset + offset else file.offset;
    r := file.offset;
  }

  /** The file a descriptor designates, as a set to modify. */
  ghost function Target(s: Session, fd: nat): set<OpenFile>
    requires s.Valid()
    reads s, s.repr
  {
    var f := Designated(s, fd);
    if f == null then {} else {f}
  }

  /**
   What became of a read or write: the octets the server returned or stored, and whether the client
   was told. A reply can be lost after the server has stored.
   */
  datatype Outcome = Outcome(data: seq<byte>, told: bool)

  const NONE := Outcome([], false)

  /** What comes back for a request: nothing or an error, something too short, or a number of octets. */
  datatype Reply<T> = Lost | Malformed | Answer(value: T)

  const ERROR_NETWORK: int := -3  // DSM_ERROR_NETWORK

  /**
   `smb_fread` from the answer on, whatever the server sent. `past` says that more octets came back
   than the caller's buffer holds, where the code copies them all and the model stops.
   */
  method ReadAnswered(s: Session, fd: nat, bufSize: nat, reply: Reply<seq<byte>>) returns (r: int, past: bool)
    requires s.Valid()
    modifies Target(s, fd)
    ensures s.Valid() && Designated(s, fd) == old(Designated(s, fd))
    ensures past <==> Designated(s, fd) != null && reply.Answer? && |reply.value| > bufSize
    ensures r >= 0 <==> Designated(s, fd) != null && reply.Answer? && !past
    ensures r >= 0 ==> r == |reply.value| && Designated(s, fd).offset == old(Designated(s, fd).offset) + r
    ensures r < 0 && Designated(s, fd) != null ==> Designated(s, fd).offset == old(Designated(s, fd).offset)
    ensures Designated(s, fd) == null || reply.Lost? ==> r == -1
  {
    hide Session.Valid;
    var file := s.FileGet(fd);
    if file == null { return -1, false; }
    match reply {
      case Lost => return -1, false;
      case Malformed => return ERROR_NETWORK, false;
      case Answer(data) =>
        if |data| > bufSize { return ERROR_NETWORK, true; }
        var at := Fseek(s, fd, |data|, Cur);
        return |data|, false;
    }
  }

  /** The offset moves by whatever count the server acknowledges, sent or not. */
  method WriteAnswered(s: Session, fd: nat, reply: Reply<nat>) returns (r: int)
    requires s.Valid()
    modifies Target(s, fd)
    ensures s.Valid() && Designated(s, fd) == old(Designated(s, fd))
    ensures r >= 0 <==> Designated(s, fd) != null && reply.Answer?
    ensures r >= 0 ==> r == reply.value && Designated(s, fd).offset == old(Designated(s, fd).offset) + r
    ensures r < 0 && Designated(s, fd) != null ==> Designated(s, fd).offset == old(Designated(s, fd).offset)
    ensures Designated(s, fd) == null || reply.Lost? ==> r == -1
  {
    hide Session.Valid;
    var file := s.FileGet(fd);
    if file == null { return -1; }
    match reply {
      case Lost => return -1;
      case Malformed => return ERROR_NETWORK;
      case Answer(count) =>
        var at := Fseek(s, fd, count, Cur);
        return count;
    }
  }

  /** A read from a server that keeps to the request: nothing is copied past the buffer. */
  method Fread(s: Session, fd: nat, bufSize: nat, content: seq<byte>) returns (r: int, out: Outcome)
    requires s.Valid()
    modifies Target(s, fd)
    ensures s.Valid() && Designated(s, fd) == old(Designated(s, fd))
    ensures Designated(s, fd) == null ==> r == -1
    ensures out.told <==> r >= 0
    ensures r < 0 ==> out == NONE && (Designated(s, fd) != null ==> Designated(s, fd).offset == old(Designated(s, fd).offset))
    ensures r >= 0 ==> r == |out.data| <= MaxRead(bufSize) && Designated(s, fd) != null
                       && Designated(s, fd).offset == old(Designated(s, fd).offset) + r
                       && IsSlice(content, out.data, Place(old(Designated(s, fd).offset)))
  {
    hide Session.Valid, IsSlice;
    out := NONE;
    var file := s.FileGet(fd);
    if file == null { return -1, out; }
    var reply, past := Lost, false;
    var lost, malformed: bool := *, *;
    if malformed {
      reply := Malformed;
    } else if !lost {
      var data := ServeRead(content, Low(file.offset), High(file.offset), MaxRead(bufSize));
      reply, out := Answer(data), Outcome(data, true);
    }
    r, past := ReadAnswered(s, fd, bufSize, reply);
  }

  /** A write to one; it may have stored a part of what was sent without the client hearing of it. */
  method Fwrite(s: Session, fd: nat, data: seq<byte>, content: seq<byte>) returns (r: int, out: Outcome, after: seq<byte>)
    requires s.Valid()
    modifies Target(s, fd)
    ensures s.Valid() && Designated(s, fd) == old(Designated(s, fd))
    ensures Designated(s, fd) == null ==> r == -1 && out == NONE && after == content
    ensures out.told <==> r >= 0
    ensures out.data <= data && |out.data| <= MaxWrite(|data|)
    ensures Designated(s, fd) != null ==>
              && after == Patched(content, Place(old(Designated(s, fd).offset)), out.data)
              && Designated(s, fd).offset == old(Designated(s, fd).offset) + (if r >= 0 then r else 0)
    ensures r >= 0 ==> r == |out.data|
  {
    hide Session.Valid, Patched, MaxWrite;
    out, after := NONE, content;
    var file := s.FileGet(fd);
    if file == null { return -1, out, after; }
    PatchedNothing(content, Place(file.offset));
    WriteFitsPacket(|data|);
    var reply := Lost;
    var arrives, answers, malformed: bool := *, *, *;
    if arrives {
      var sent, count := data[..MaxWrite(|data|)], 0;
      after, count := ServeWrite(content, Low(file.offset), High(file.offset), sent);
      assert sent[..count] == data[..count];
      out := Outcome(data[..count], answers && !malformed);
      reply := if malformed then Malformed else if answers then Answer(count) else Lost;
    }
    r := WriteAnswered(s, fd, reply);
  }

  // --- whole runs -----------------------------------------------------------------------------------

  datatype Op = Seek(offset: int, whence: Whence) | Read(bufSize: nat) | Write(data: seq<byte>)

  /** The offset in the table and the file on the server. */
  datatype Disk = Disk(at: int, content: seq<byte>)

  function Moved(d: Disk, op: Op, out: Outcome): Disk
  {
    match op
    case Seek(offset, whence) => d.(at := Sought(d.at, offset, whence))
    case Read(_) => d.(at := d.at + |out.data|)
    case Write(_) => Disk(if out.told then d.at + |out.data| else d.at, Patched(d.content, Place(d.at), out.data))
  }

  /** How things stand before operation `i` of a run. */
  function DiskAt(start: Disk, ops: seq<Op>, outs: seq<Outcome>, i: nat): Disk
    requires i <= |ops| && i <= |outs|
  {
    if i == 0 then start else Moved(DiskAt(start, ops, outs, i - 1), ops[i - 1], outs[i - 1])
  }

  lemma {:induction false} DiskAtPrefix(start: Disk, ops: seq<Op>, a: seq<Outcome>, b: seq<Outcome>, i: nat)
    requires i <= |ops| && i <= |a| && a <= b
    ensures DiskAt(start, ops, a, i) == DiskAt(start, ops, b, i)
  {
    if i > 0 { DiskAtPrefix(start, ops, a, b, i - 1); }
  }

  /** What an operation may have for an outcome when it is called with things as in `d`. */
  predicate Possible(d: Disk, op: Op, out: Outcome)
  {
    match op
    case Seek(_, _) => out == NONE
    case Read(bufSize) => |out.data| <= MaxRead(bufSize) && IsSlice(d.content, out.data, Place(d.at))
    case Write(data) => out.data <= data && |out.data| <= MaxWrite(|data|)
  }

  /** Every operation of a run had a possible outcome at its moment. */
  ghost predicate Faithful(start: Disk, ops: seq<Op>, outs: seq<Outcome>)
    requires |outs| <= |ops|
  {
    forall i :: 0 <= i < |outs| ==> Possible(DiskAt(start, ops, outs, i), ops[i], outs[i])
  }

  lemma FaithfulNone(start: Disk, ops: seq<Op>)
    ensures Faithful(start, ops, []) && DiskAt(start, ops, [], 0) == start
  {
  }

  lemma FaithfulSnoc(start: Disk, ops: seq<Op>, outs: seq<Outcome>, out: Outcome)
    requires |outs| < |ops| && Faithful(start, ops, outs)
    requires Possible(DiskAt(start, ops, outs, |outs|), ops[|outs|], out)
    ensures Faithful(start, ops, outs + [out])
    ensures DiskAt(start, ops, outs + [out], |outs| + 1) == Moved(DiskAt(start, ops, outs, |outs|), ops[|outs|], out)
  {
    hide Possible, Moved;
    var all := outs + [out];
    forall i | 0 <= i < |all|
      ensures Possible(DiskAt(start, ops, all, i), ops[i], all[i])
    {
      DiskAtPrefix(start, ops, outs, all, i);
      if i < |outs| { assert all[i] == outs[i]; }
    }
    DiskAtPrefix(start, ops, outs, all, |outs|);
  }

  /** Any run of seeks, reads and writes on one descriptor. */
  method RunOps(s: Session, fd: nat, content: seq<byte>, ops: seq<Op>) returns (outs: seq<Outcome>, after: seq<byte>)
    requires s.Valid() && Designated(s, fd) != null
    modifies Target(s, fd)
    ensures |outs| == |ops| && s.Valid() && Designated(s, fd) == old(Designated(s, fd))
    ensures var start := Disk(old(Designated(s, fd).offset), content);
            && Faithful(start, ops, outs)
            && Disk(Designated(s, fd).offset, after) == DiskAt(start, ops, outs, |ops|)
  {
    hide Faithful, DiskAt, Session.Valid, Moved, Possible;
    outs, after := [], content;
    ghost var start := Disk(Designated(s, fd).offset, content);
    FaithfulNone(start, ops);
    for i := 0 to |ops|
      invariant |outs| == i && s.Valid() && Designated(s, fd) == old(Designated(s, fd))
      invariant Faithful(start, ops, outs)
      invariant Disk(Designated(s, fd).offset, after) == DiskAt(start, ops, outs, i)
    {
      var out, content' := Perform(s, fd, after, ops[i]);
      FaithfulSnoc(start, ops, outs, out);
      outs, after := outs + [out], content';
    }
  }

  /** One operation: its outcome is possible, and things end up where the model says. */
  method Perform(s: Session, fd: nat, content: seq<byte>, op: Op) returns (out: Outcome, after: seq<byte>)
    requires s.Valid() && Designated(s, fd) != null
    modifies Target(s, fd)
    ensures s.Valid() && Designated(s, fd) == old(Designated(s, fd))
    ensures Possible(Disk(old(Designated(s, fd).offset), content), op, out)
    ensures Disk(Designated(s, fd).offset, after) == Moved(Disk(old(Designated(s, fd).offset), content), op, out)
  {
    hide Session.Valid, Place, Patched;
    out, after := NONE, content;
    var r: int;
    match op {
      case Seek(offset, whence) =>
        r := Fseek(s, fd, offset, whence);
      case Read(bufSize) =>
        r, out := Fread(s, fd, bufSize, content);
      case Write(data) =>
        r, out, after := Fwrite(s, fd, data, content);
    }
  }

  // --- what follows for a run -----------------------------------------------------------------------

  /** How far an operation that is no absolute seek moves the offset. */
  function Advance(op: Op, out: Outcome): int
  {
    match op
    case Seek(offset, whence) => if whence.Cur? then offset else 0
    case Read(_) => |out.data|
    case Write(_) => if out.told then |out.data| else 0
  }

  function Advances(ops: seq<Op>, outs: seq<Outcome>, i: nat, j: nat): int
    requires i <= j <= |ops| && j <= |outs|
  {
    if i == j then 0 else Advances(ops, outs, i, j - 1) + Advance(ops[j - 1], outs[j - 1])
  }

  predicate IsAbsolute(op: Op) { op.Seek? && op.whence.Set? }

  lemma {:induction false} OffsetSince(start: Disk, ops: seq<Op>, outs: seq<Outcome>, i: nat, j: nat)
    requires i <= j <= |ops| && j <= |outs| && forall k :: i <= k < j ==> !IsAbsolute(ops[k])
    ensures DiskAt(start, ops, outs, j).at == DiskAt(start, ops, outs, i).at + Advances(ops, outs, i, j)
    decreases j - i
  {
    hide Patched, Place;
    if i < j {
      assert !IsAbsolute(ops[j - 1]);
      OffsetSince(start, ops, outs, i, j - 1);
    }
  }

  /**
   The offset is the value of the last absolute seek, or where the run began if there is none, plus
   the relative seeks and the returned and acknowledged lengths since.
   */
  lemma OffsetSinceLastSeek(start: Disk, ops: seq<Op>, outs: seq<Outcome>, i: nat, j: nat)
    requires i <= j <= |ops| && j <= |outs| && forall k :: i <= k < j ==> !IsAbsolute(ops[k])
    requires i == 0 || IsAbsolute(ops[i - 1])
    ensures DiskAt(start, ops, outs, j).at
         == (if i == 0 then start.at else ops[i - 1].offset) + Advances(ops, outs, i, j)
  {
    OffsetSince(start, ops, outs, i, j);
  }

  /** The octets of outcomes `i` to `j`, joined. */
  function Joined(outs: seq<Outcome>, i: nat, j: nat): seq<byte>
    requires i <= j <= |outs|
  {
    if i == j then [] else Joined(outs, i, j - 1) + outs[j - 1].data
  }

  lemma JoinSlices(content: seq<byte>, a: seq<byte>, b: seq<byte>, at: nat)
    requires IsSlice(content, a, at) && IsSlice(content, b, at + |a|)
    ensures IsSlice(content, a + b, at)
  {
    if a == [] {
      assert a + b == b;
    } else if b == [] {
      assert a + b == a;
    }
  }

  /** Reads without a seek in between return one contiguous slice of the file. */
  lemma {:induction false} ReadsAreContiguous(start: Disk, ops: seq<Op>, outs: seq<Outcome>, i: nat, j: nat)
    requires i <= j <= |outs| <= |ops| && Faithful(start, ops, outs)
    requires forall k :: i <= k < j ==> ops[k].Read?
    requires 0 <= DiskAt(start, ops, outs, i).at && DiskAt(start, ops, outs, j).at < TWO63
    ensures var before, after := DiskAt(start, ops, outs, i), DiskAt(start, ops, outs, j);
            && after == before.(at := before.at + |Joined(outs, i, j)|)
            && IsSlice(before.content, Joined(outs, i, j), before.at)
    decreases j - i
  {
    hide IsSlice, Faithful, Place;
    var before := DiskAt(start, ops, outs, i);
    if i == j {
      NothingIsSlice(before.content, before.at);
    } else {
      ReadFaithfully(start, ops, outs, j - 1);
      ReadsAreContiguous(start, ops, outs, i, j - 1);
      PlaceIsOffset(DiskAt(start, ops, outs, j - 1).at);
      JoinSlices(before.content, Joined(outs, i, j - 1), outs[j - 1].data, before.at);
    }
  }

  lemma NothingIsSlice(content: seq<byte>, at: nat)
    ensures IsSlice(content, [], at)
  {
  }

  lemma ReadFaithfully(start: Disk, ops: seq<Op>, outs: seq<Outcome>, k: nat)
    requires k < |outs| <= |ops| && Faithful(start, ops, outs) && ops[k].Read?
    ensures var d := DiskAt(start, ops, outs, k);
            && DiskAt(start, ops, outs, k + 1) == d.(at := d.at + |outs[k].data|)
            && IsSlice(d.content, outs[k].data, Place(d.at))
  {
    hide IsSlice, Place;
    assert Possible(DiskAt(start, ops, outs, k), ops[k], outs[k]);
  }

  /** Two writes, one right behind the other, are one write of both. */
  lemma PatchedTwice(content: seq<byte>, at: nat, a: seq<byte>, b: seq<byte>)
    ensures Patched(Patched(content, at, a), at + |a|, b) == Patched(content, at, a + b)
  {
    hide Patched;
    var once := Patched(content, at, a);
    if a == [] {
      assert a + b == b;
      PatchedNothing(content, at);
    } else if b == [] {
      assert a + b == a;
      PatchedNothing(once, at + |a|);
    } else {
      PatchedAt(content, at, a);
      PatchedAt(once, at + |a|, b);
      PatchedAt(content, at, a + b);
      var twice, both := Patched(once, at + |a|, b), Patched(content, at, a + b);
      assert |twice| == |both|;
      forall k | 0 <= k < |both| ensures twice[k] == both[k] {
        assert at <= k < at + |a| ==> (a + b)[k - at] == a[k - at];
      }
    }
  }

  lemma PatchedNothing(content: seq<byte>, at: nat)
    ensures Patched(content, at, []) == content
  {
  }

  /** A written file, octet by octet. */
  lemma PatchedAt(content: seq<byte>, at: nat, data: seq<byte>)
    requires data != []
    ensures var r, n := Patched(content, at, data), |content|;
            && |r| == (if at + |data| > n then at + |data| else n)
            && forall k :: 0 <= k < |r| ==>
                 r[k] == if at <= k < at + |data| then data[k - at] else if k < n then content[k] else 0
  {
  }

  /** Writes without a seek in between, all of them acknowledged, are one write of what was stored. */
  lemma {:induction false} WritesAreContiguous(start: Disk, ops: seq<Op>, outs: seq<Outcome>, i: nat, j: nat)
    requires i <= j <= |outs| <= |ops|
    requires forall k :: i <= k < j ==> ops[k].Write? && outs[k].told
    requires 0 <= DiskAt(start, ops, outs, i).at && DiskAt(start, ops, outs, j).at < TWO63
    ensures var before, after := DiskAt(start, ops, outs, i), DiskAt(start, ops, outs, j);
            && after == Disk(before.at + |Joined(outs, i, j)|, Patched(before.content, before.at, Joined(outs, i, j)))
    decreases j - i
  {
    hide Place, Patched;
    var before := DiskAt(start, ops, outs, i);
    PatchedNothing(before.content, before.at);
    if i < j {
      WritesAreContiguous(start, ops, outs, i, j - 1);
      PlaceIsOffset(DiskAt(start, ops, outs, j - 1).at);
      PatchedTwice(before.content, before.at, Joined(outs, i, j - 1), outs[j - 1].data);
    }
  }

  /** What can be read at a place just written: the written octets, and what is behind them. */
  lemma SliceOfPatched(content: seq<byte>, at: nat, data: seq<byte>, r: seq<byte>)
    requires IsSlice(Patched(content, at, data), r, at)
    ensures if |r| <= |data| then r <= data else data <= r
  {
    if data != [] { PatchedAt(content, at, data); }
  }

  /** Seeking back after acknowledged writes and reading returns what was stored, however it is cut. */
  lemma ReadBack(start: Disk, ops: seq<Op>, outs: seq<Outcome>, i: nat, j: nat, k: nat)
    requires i <= j < k <= |outs| <= |ops| && Faithful(start, ops, outs)
    requires forall m :: i <= m < j ==> ops[m].Write? && outs[m].told
    requires ops[j] == Seek(DiskAt(start, ops, outs, i).at, Set)
    requires forall m :: j < m < k ==> ops[m].Read?
    requires 0 <= DiskAt(start, ops, outs, i).at
    requires DiskAt(start, ops, outs, j).at < TWO63 && DiskAt(start, ops, outs, k).at < TWO63
    ensures var written, read := Joined(outs, i, j), Joined(outs, j + 1, k);
            if |read| <= |written| then read <= written else written <= read
  {
    hide Faithful, Patched, IsSlice, Joined;
    var before, back := DiskAt(start, ops, outs, i), DiskAt(start, ops, outs, j + 1);
    WritesAreContiguous(start, ops, outs, i, j);
    assert back == DiskAt(start, ops, outs, j).(at := before.at);
    ReadsAreContiguous(start, ops, outs, j + 1, k);
    SliceOfPatched(before.content, before.at, Joined(outs, i, j), Joined(outs, j + 1, k));
  }
}
