/**
 The message builder of src/smb_message.c.

 Sizes are `size_t` values: 64-bit, wrapping. The growth formula relies on the wrap-around when it
 is called for zero octets.
 */
module SmbMessage {
  import opened Bytes
  import opened Memory

  const HEADER_SIZE: nat := 32  // sizeof(smb_packet)
  const BLOCK_SIZE: nat := 256  // PAYLOAD_BLOCK_SIZE

  function Wrap(n: int): (r: nat)
    ensures r < TWO64
  {
    n % TWO64
  }

  // --- smb_message_expand_payload ---------------------------------------------------------------

  predicate MustGrow(payloadSize: nat, cursor: nat, dataSize: nat)
  {
    dataSize == 0 || dataSize > Wrap(payloadSize - cursor)
  }

  function GrownSize(payloadSize: nat, cursor: nat, dataSize: nat): (r: nat)
    ensures r < TWO64
  {
    var newSize := Wrap(dataSize + cursor - payloadSize);
    var nbBlocks := newSize / BLOCK_SIZE + 1;
    Wrap(payloadSize + Wrap(nbBlocks * BLOCK_SIZE))
  }

  /** The payload size after a call that found room or got it from `realloc`. */
  function SizeAfter(payloadSize: nat, cursor: nat, dataSize: nat): nat
  {
    if MustGrow(payloadSize, cursor, dataSize) then GrownSize(payloadSize, cursor, dataSize) else payloadSize
  }

  /** Growth for data that does not fit: whole blocks, with 1 to 256 octets to spare. */
  lemma GrowthLeavesSlack(payloadSize: nat, cursor: nat, dataSize: nat)
    requires cursor <= payloadSize < TWO63 && 0 < dataSize < TWO63
    ensures MustGrow(payloadSize, cursor, dataSize) <==> cursor + dataSize > payloadSize
    ensures MustGrow(payloadSize, cursor, dataSize) ==>
              var grown := GrownSize(payloadSize, cursor, dataSize);
              && 1 <= grown - (cursor + dataSize) <= BLOCK_SIZE
              && (grown - payloadSize) % BLOCK_SIZE == 0
  {
    hide Wrap;
    WrapSmall(payloadSize - cursor);
    if cursor + dataSize > payloadSize { GrownSizeIs(payloadSize, cursor, dataSize); }
  }

  /** Without a wrap-around: as many blocks as it takes to exceed what is missing. */
  lemma GrownSizeIs(payloadSize: nat, cursor: nat, dataSize: nat)
    requires payloadSize < TWO63 && payloadSize <= cursor + dataSize && cursor + dataSize - payloadSize < TWO63
    ensures var missing := cursor + dataSize - payloadSize;
            && GrownSize(payloadSize, cursor, dataSize) == payloadSize + (missing / BLOCK_SIZE + 1) * BLOCK_SIZE
            && missing < (missing / BLOCK_SIZE + 1) * BLOCK_SIZE <= missing + BLOCK_SIZE
  {
    hide Wrap;
    var missing := cursor + dataSize - payloadSize;
    assert missing < (missing / BLOCK_SIZE + 1) * BLOCK_SIZE <= missing + BLOCK_SIZE;
    WrapSmall(missing);
    WrapSmall((missing / BLOCK_SIZE + 1) * BLOCK_SIZE);
    WrapSmall(payloadSize + (missing / BLOCK_SIZE + 1) * BLOCK_SIZE);
  }

  lemma WrapSmall(n: nat)
    requires n < TWO64
    ensures Wrap(n) == n
  {
  }

  /** A call for zero octets always resizes: the slack becomes what it was, reduced to 1..256. */
  lemma ZeroLengthSlack(payloadSize: nat, cursor: nat)
    requires cursor <= payloadSize < TWO63
    ensures MustGrow(payloadSize, cursor, 0)
    ensures GrownSize(payloadSize, cursor, 0)
         == cursor + (if payloadSize == cursor then BLOCK_SIZE else (payloadSize - cursor - 1) % BLOCK_SIZE + 1)
  {
    var k := payloadSize - cursor;
    if k == 0 {
      assert Wrap(0) == 0;
    } else {
      assert Wrap(-k) == TWO64 - k;
      var q, r := (k - 1) / BLOCK_SIZE, (k - 1) % BLOCK_SIZE;
      assert k == BLOCK_SIZE * q + r + 1;
      var blocks := (TWO64 - k) / BLOCK_SIZE + 1;
      WrappedBlocks(k);
      assert blocks * BLOCK_SIZE == TWO64 - BLOCK_SIZE * q;
      assert payloadSize + Wrap(TWO64 - BLOCK_SIZE * q) == payloadSize - BLOCK_SIZE * q + (if q == 0 then 0 else TWO64);
    }
  }

  lemma WrappedBlocks(k: nat)
    requires 0 < k < TWO63
    ensures (TWO64 - k) / BLOCK_SIZE + 1 == TWO64 / BLOCK_SIZE - (k - 1) / BLOCK_SIZE
  {
  }

  /** At the message's own cursor the room is always enough and nothing is cut off. */
  lemma ExpandMakesRoom(payloadSize: nat, cursor: nat, dataSize: nat)
    requires cursor <= payloadSize < TWO63 && dataSize < TWO63
    ensures cursor + dataSize <= SizeAfter(payloadSize, cursor, dataSize)
  {
    if dataSize == 0 { ZeroLengthSlack(payloadSize, cursor); }
    else { GrowthLeavesSlack(payloadSize, cursor, dataSize); }
  }

  /** Elsewhere only up to the end of the payload: behind it, nothing grows for data that is to be written. */
  lemma InsertStaysInside(payloadSize: nat, at: nat, dataSize: nat)
    requires payloadSize < TWO63 && at < TWO63 && dataSize < TWO63
    ensures at + dataSize <= SizeAfter(payloadSize, at, dataSize) <==> at <= payloadSize || dataSize == 0
    ensures at > payloadSize ==> payloadSize <= SizeAfter(payloadSize, at, dataSize)
    ensures at > payloadSize && dataSize > 0 ==> !MustGrow(payloadSize, at, dataSize)
  {
    if at <= payloadSize {
      ExpandMakesRoom(payloadSize, at, dataSize);
    } else if dataSize == 0 {
      GrowthBehindEnd(payloadSize, at);
    } else {
      WrapNegative(at - payloadSize);
    }
  }

  lemma GrowthBehindEnd(payloadSize: nat, at: nat)
    requires payloadSize < at < TWO63
    ensures payloadSize < at <= GrownSize(payloadSize, at, 0)
  {
    GrownSizeIs(payloadSize, at, 0);
  }

  /** Two octets for place 300 of a 256-octet payload are written behind it. */
  lemma InsertExample()
    ensures SizeAfter(256, 300, 2) == 256 < 300 + 2
  {
    InsertStaysInside(256, 300, 2);
  }

  /**
   The octets up to the cursor are not always kept either: an insertion at `at` keeps them exactly if
   it inserts something, is not before the end, or leaves a slack after `at` that reaches the cursor.
   */
  lemma InsertKeepsCursor(payloadSize: nat, at: nat, dataSize: nat, cursor: nat)
    requires payloadSize < TWO63 && at < TWO63 && dataSize < TWO63 && cursor <= payloadSize
    ensures cursor <= SizeAfter(payloadSize, at, dataSize) <==>
            (dataSize > 0 || payloadSize <= at || cursor <= at + (payloadSize - at - 1) % BLOCK_SIZE + 1)
  {
    if at > payloadSize { InsertStaysInside(payloadSize, at, dataSize); }
    else if dataSize == 0 { ZeroLengthSlack(payloadSize, at); }
    else { GrowthLeavesSlack(payloadSize, at, dataSize); }
  }

  /** Inserting nothing at the start of a 512-octet payload with the cursor at 300 leaves 256 octets. */
  lemma EmptyInsertCuts()
    ensures SizeAfter(512, 0, 0) == 256 < 300
  {
    ZeroLengthSlack(512, 0);
  }

  // --- smb_message_grow ---------------------------------------------------------------------------

  /** What is allocated for a copy with `size` octets more, and copied into it. */
  function Allocated(payloadSize: nat, size: nat): nat { Wrap(HEADER_SIZE + Wrap(payloadSize + size)) }
  function Copied(payloadSize: nat): nat { HEADER_SIZE + payloadSize }

  /**
   A difference that was meant as the growth, as a `size_t`: the copy fits exactly if it is not
   negative, or so far below zero that no memory is that large.
   */
  lemma GrowStaysInside(payloadSize: nat, growth: int)
    requires Copied(payloadSize) < TWO32 && growth + TWO32 > 0 && growth < TWO32
    ensures Copied(payloadSize) <= Allocated(payloadSize, Wrap(growth)) <==> growth >= 0 || Copied(payloadSize) + growth < 0
    ensures Copied(payloadSize) + growth < 0 ==> Allocated(payloadSize, Wrap(growth)) >= TWO63
    ensures Copied(payloadSize) + growth >= 0 ==> Allocated(payloadSize, Wrap(growth)) == Copied(payloadSize) + growth
  {
    hide Wrap;
    WrapSum(payloadSize, growth);
    WrapSum(HEADER_SIZE, payloadSize + growth);
    var sum := HEADER_SIZE + payloadSize + growth;
    if sum >= 0 { WrapSmall(sum); } else { WrapNegative(-sum); }
  }

  lemma WrapNegative(n: int)
    requires 0 < n < TWO64
    ensures Wrap(-n) == TWO64 - n
  {
  }

  lemma WrapSum(a: int, b: int)
    ensures Wrap(a + Wrap(b)) == Wrap(a + b)
  {
  }

  // --- the message ------------------------------------------------------------------------------

  /** How a call ends; the model stops where the code would write outside its memory. */
  datatype Outcome = Done | NoMemory | Past

  class Message {
    var payloadSize: nat
    var cursor: nat
    var payload: array<byte>

    ghost predicate Valid()
      reads this
    {
      cursor <= payloadSize == payload.Length < TWO63
    }

    /** The octets written so far: what `smb_session_send_msg` sends behind the header. */
    ghost function Written(): seq<byte>
      requires Valid()
      reads this, payload
    {
      payload[..cursor]
    }

    /** `smb_message_new`: the first block comes from a call for zero octets on an empty message. */
    constructor ()
      ensures Valid() && fresh(payload)
      ensures payloadSize == BLOCK_SIZE && cursor == 0
    {
      ZeroLengthSlack(0, 0);
      payloadSize := GrownSize(0, 0, 0);
      cursor := 0;
      payload := new byte[256];
    }

    /** The copy `smb_message_grow` makes once it has the memory. */
    constructor Grown(original: seq<byte>, cursor: nat, size: nat)
      requires |original| <= Wrap(|original| + size) < TWO63 && cursor <= |original|
      ensures Valid() && fresh(payload) && this.cursor == cursor
      ensures payloadSize == Wrap(|original| + size) && payload[..|original|] == original
    {
      payloadSize, this.cursor := Wrap(|original| + size), cursor;
      payload := new byte[Wrap(|original| + size)];
      new;
      MemCopy(payload, 0, original);
      assert payload[..|original|] == payload[..][0..|original|];
    }

    /** `realloc`, which may fail, and must for more than the largest object. */
    method Realloc(newSize: nat) returns (ok: bool)
      requires Valid()
      modifies this`payload, this`payloadSize
      ensures !ok ==> payload == old(payload) && payloadSize == old(payloadSize)
      ensures ok ==> fresh(payload) && payload.Length == payloadSize == newSize && newSize + HEADER_SIZE < TWO63
      ensures ok ==> var kept := if newSize < old(payloadSize) then newSize else old(payloadSize);
                     payload[..kept] == old(payload[..kept])
    {
      ok := *;
      if !ok || newSize + HEADER_SIZE >= TWO63 {
        return false;
      }
      var grown := new byte[newSize];
      forall i | 0 <= i < newSize && i < payloadSize {
        grown[i] := payload[i];
      }
      payload, payloadSize := grown, newSize;
    }

    method ExpandPayload(at: nat, dataSize: nat) returns (ok: bool)
      requires Valid() && at < TWO63 && dataSize < TWO63
      modifies this`payload, this`payloadSize
      ensures !ok ==> payload == old(payload) && payloadSize == old(payloadSize)
      ensures ok ==> payload == old(payload) || fresh(payload)
      ensures ok ==> payload.Length == payloadSize == SizeAfter(old(payloadSize), at, dataSize) < TWO63
      ensures ok ==> (at + dataSize <= payloadSize <==> at <= old(payloadSize) || dataSize == 0)
      ensures !MustGrow(old(payloadSize), at, dataSize) ==> ok && payload == old(payload)
      ensures ok ==> var kept := if payloadSize < old(payloadSize) then payloadSize else old(payloadSize);
                     payload[..kept] == old(payload[..kept])
    {
      InsertStaysInside(payloadSize, at, dataSize);
      if MustGrow(payloadSize, at, dataSize) {
        ok := Realloc(GrownSize(payloadSize, at, dataSize));
      } else {
        ok := true;
      }
    }

    method Append(data: seq<byte>) returns (ok: bool)
      requires Valid() && |data| < TWO63
      modifies this, payload
      ensures Valid() && (payload == old(payload) || fresh(payload))
      ensures !ok ==> payload == old(payload) && Written() == old(Written()) && payloadSize == old(payloadSize)
      ensures ok ==> Written() == old(Written()) + data
      ensures ok ==> payloadSize == SizeAfter(old(payloadSize), old(cursor), |data|)
      ensures !MustGrow(old(payloadSize), old(cursor), |data|) ==> ok
    {
      hide SizeAfter, MustGrow;
      ok := ExpandPayload(cursor, |data|);
      if !ok { return; }
      assert payload[..cursor] == old(payload[..cursor]);
      MemCopy(payload, cursor, data);
      cursor := cursor + |data|;
    }

    method Advance(size: nat) returns (ok: bool)
      requires Valid() && size < TWO63
      modifies this
      ensures Valid() && (payload == old(payload) || fresh(payload))
      ensures !ok ==> payload == old(payload) && cursor == old(cursor) && payloadSize == old(payloadSize)
      ensures ok ==> cursor == old(cursor) + size && Written()[..old(cursor)] == old(Written())
      ensures ok ==> payloadSize == SizeAfter(old(payloadSize), old(cursor), size)
    {
      ok := ExpandPayload(cursor, size);
      if !ok { return; }
      assert payload[..cursor] == old(payload[..cursor]);
      cursor := cursor + size;
      assert payload[..cursor][..old(cursor)] == payload[..old(cursor)];
    }

    /** Writing over octets already there. An empty insertion can leave the cursor past the end. */
    method Insert(at: nat, data: seq<byte>) returns (end: Outcome)
      requires Valid() && at < TWO63 && |data| < TWO63
      modifies this, payload
      ensures cursor == old(cursor) && (payload == old(payload) || fresh(payload))
      ensures end.Past? <==> at > old(payloadSize) && data != []
      ensures !end.Done? ==> Valid() && payload == old(payload) && payload[..] == old(payload[..])
      ensures end.Done? ==> payload.Length == payloadSize == SizeAfter(old(payloadSize), at, |data|) < TWO63
      ensures end.Done? ==> (Valid() <==> data != [] || old(payloadSize) <= at
                                          || cursor <= at + (old(payloadSize) - at - 1) % BLOCK_SIZE + 1)
      ensures end.Done? ==> at + |data| <= payloadSize && payload[at..at + |data|] == data
      ensures end.Done? ==> forall i :: 0 <= i < old(payloadSize) && i < payloadSize && !(at <= i < at + |data|) ==>
                              payload[i] == old(payload[i])
    {
      hide SizeAfter, MustGrow;
      InsertKeepsCursor(payloadSize, at, |data|, cursor);
      InsertStaysInside(payloadSize, at, |data|);
      var ok := ExpandPayload(at, |data|);
      if !ok { return NoMemory; }
      if at + |data| > payloadSize { return Past; }
      ghost var kept := if payloadSize < old(payloadSize) then payloadSize else old(payloadSize);
      assert forall i :: 0 <= i < kept ==> payload[i] == payload[..kept][i] == old(payload[i]);
      MemCopy(payload, at, data);
      assert payload[at..at + |data|] == payload[..][at..at + |data|];
      end := Done;
    }
  }

  /** `smb_message_grow`: a copy of a message, with memory for what the wrapped sum says. */
  method Grow(original: seq<byte>, cursor: nat, size: nat) returns (end: Outcome, copy: Message?)
    requires Copied(|original|) < TWO32 && cursor <= |original|
    ensures end.NoMemory? <==> Allocated(|original|, size) >= TWO63
    ensures end.Past? <==> Allocated(|original|, size) < TWO63 && Copied(|original|) > Allocated(|original|, size)
    ensures copy != null <==> end.Done?
    ensures end.Done? ==> fresh(copy) && fresh(copy.payload) && copy.Valid() && copy.cursor == cursor
    ensures end.Done? ==> copy.payloadSize == Wrap(|original| + size) && copy.payload[..|original|] == original
  {
    copy := null;
    var payloadSize := Wrap(|original| + size);
    var memory := Wrap(HEADER_SIZE + payloadSize);
    if memory >= TWO63 { return NoMemory, null; }
    if HEADER_SIZE + |original| > memory { return Past, null; }
    copy := new Message.Grown(original, cursor, size);
    end := Done;
  }

  // --- two ways to build one message ------------------------------------------------------------

  /** Every piece appended in turn, giving up at the first failure. */
  method AppendAll(msg: Message, pieces: seq<seq<byte>>) returns (ok: bool)
    requires msg.Valid() && forall p :: p in pieces ==> |p| < TWO63
    modifies msg, msg.payload
    ensures msg.Valid() && (msg.payload == old(msg.payload) || fresh(msg.payload))
    ensures ok ==> msg.Written() == old(msg.Written()) + Concat(pieces)
  {
    hide SizeAfter, MustGrow, Concat;
    ConcatNone(pieces);
    ghost var before := msg.Written();
    assert before + [] == before;
    for i := 0 to |pieces|
      invariant msg.Valid() && (msg.payload == old(msg.payload) || fresh(msg.payload))
      invariant msg.Written() == before + Concat(pieces[..i])
    {
      ok := msg.Append(pieces[i]);
      if !ok { return; }
      ConcatPrefixStep(pieces, i);
      assert (before + Concat(pieces[..i])) + pieces[i] == before + (Concat(pieces[..i]) + pieces[i]);
    }
    assert pieces[..|pieces|] == pieces;
    ok := true;
  }

  /**
   As the session setup request is built: room for the header is reserved, the body is appended in
   pieces, and the header goes in last, when the length of the body is known.
   */
  method BuildHeaderLast(header: seq<byte>, pieces: seq<seq<byte>>) returns (ok: bool, msg: Message)
    requires 0 < |header| < TWO63 && forall p :: p in pieces ==> |p| < TWO63
    ensures ok ==> msg.Valid() && msg.Written() == header + Concat(pieces)
  {
    hide SizeAfter, MustGrow, Concat;
    msg := new Message();
    ok := msg.Advance(|header|);
    if !ok { return; }
    ghost var reserved := msg.Written();
    ok := AppendAll(msg, pieces);
    if !ok { return; }
    assert (reserved + Concat(pieces))[|header|..] == Concat(pieces);
    assert msg.payload[|header|..msg.cursor] == msg.payload[..msg.cursor][|header|..];
    var end := msg.Insert(0, header);
    ok := end.Done?;
    assert ok ==> msg.payload[..msg.cursor] == msg.payload[0..|header|] + Concat(pieces);
  }

  /** The straightforward order, for comparison. */
  method BuildHeaderFirst(header: seq<byte>, pieces: seq<seq<byte>>) returns (ok: bool, msg: Message)
    requires |header| < TWO63 && forall p :: p in pieces ==> |p| < TWO63
    ensures ok ==> msg.Valid() && msg.Written() == header + Concat(pieces)
  {
    msg := new Message();
    ok := msg.Append(header);
    if !ok { return; }
    assert msg.Written() == header;
    ok := AppendAll(msg, pieces);
  }
}
