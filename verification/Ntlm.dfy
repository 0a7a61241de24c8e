/** NTLMv2 responses and the AUTHENTICATE token of src/smb_ntlm.c (section 2.2.1.3 of [MS-NLMP]). */
module Ntlm {
  import opened Bytes
  import opened HmacMd5
  import opened Memory
  import Rc4

  // --- responses ----------------------------------------------------------------------------------

  /** `smb_to_utf16`; an empty result is a failed conversion. */
  type Utf16 = seq<byte> -> seq<byte>

  function Upper(s: seq<byte>): (r: seq<byte>)
    ensures |r| == |s| && forall i :: 0 <= i < |s| ==> r[i] == ToUpper(s[i])
  {
    seq(|s|, i requires 0 <= i < |s| => ToUpper(s[i]))
  }

  /** The NTLMv2 hash; the user name is cut to the 63 octets of a local buffer. */
  function HashV2(user: seq<byte>, password: seq<byte>, dest: seq<byte>, utf16: Utf16): (r: seq<byte>)
    ensures |r| == 16
  {
    RfcHmac(Md4(utf16(password)), utf16(Upper(if |user| > 63 then user[..63] else user)) + utf16(dest))
  }

  /** NTOWFv2 of section 3.3.2 of [MS-NLMP]: one conversion of the upper-cased user name and the domain behind it. */
  function NtowfV2(user: seq<byte>, password: seq<byte>, domain: seq<byte>, utf16: Utf16): (r: seq<byte>)
    ensures |r| == 16
  {
    RfcHmac(Md4(utf16(password)), utf16(Upper(user) + domain))
  }

  /** A conversion that goes character by character. */
  ghost predicate Distributes(utf16: Utf16)
  {
    forall a: seq<byte>, b: seq<byte> :: utf16(a + b) == utf16(a) + utf16(b)
  }

  /** The hash is NTOWFv2 of the user name cut to 63 octets, and so of the user name if it is no longer. */
  lemma HashIsNtowf(user: seq<byte>, password: seq<byte>, dest: seq<byte>, utf16: Utf16)
    requires Distributes(utf16)
    ensures HashV2(user, password, dest, utf16) == NtowfV2(if |user| > 63 then user[..63] else user, password, dest, utf16)
    ensures |user| <= 63 ==> HashV2(user, password, dest, utf16) == NtowfV2(user, password, dest, utf16)
  {
    hide RfcHmac, Md4;
    var name := if |user| > 63 then user[..63] else user;
    assert utf16(Upper(name) + dest) == utf16(Upper(name)) + utf16(dest);
  }

  /** `smb_ntlm2_hash`. */
  method Ntlm2Hash(user: seq<byte>, password: seq<byte>, dest: seq<byte>, utf16: Utf16) returns (hash: seq<byte>)
    requires |utf16(password)| < TWO64
    requires |utf16(Upper(if |user| > 63 then user[..63] else user))| + |utf16(dest)| + 64 < TWO64
    ensures hash == HashV2(user, password, dest, utf16)
    ensures Distributes(utf16) && |user| <= 63 ==> hash == NtowfV2(user, password, dest, utf16)
  {
    hide RfcHmac, Md4, NtowfV2, Distributes;
    if Distributes(utf16) { HashIsNtowf(user, password, dest, utf16); }
    var hashV1 := Md4OfPieces([utf16(password)]);
    assert Concat([utf16(password)]) == utf16(password);
    var name := if |user| > 63 then user[..63] else user;
    var upper := new byte[|name|];
    for i := 0 to |name|
      invariant forall j :: 0 <= j < i ==> upper[j] == ToUpper(name[j])
    {
      upper[i] := ToUpper(name[i]);
    }
    assert upper[..] == Upper(name);
    hash := Hmac(hashV1, utf16(upper[..]) + utf16(dest));
  }

  /** `smb_ntlm_make_blob`: the packed structure and the target information behind it. */
  function Blob(ts: nat, challenge: nat, target: seq<byte>): (r: seq<byte>)
    ensures |r| == 28 + |target|
  {
    Le32(0x101) + Le32(0) + Le64(ts) + Le64(challenge) + Le32(0) + target
  }

  /** What a reader of the packed structure finds at its offsets. */
  predicate BlobHolds(blob: seq<byte>, ts: nat, challenge: nat, target: seq<byte>)
  {
    && |blob| >= 28
    && Field(blob, 0, 4) == 0x101 && Field(blob, 4, 4) == 0
    && Field(blob, 8, 8) == ts && Field(blob, 16, 8) == challenge
    && Field(blob, 24, 4) == 0 && blob[28..] == target
  }

  lemma BlobFields(ts: nat, challenge: nat, target: seq<byte>)
    requires ts < TWO64 && challenge < TWO64
    ensures BlobHolds(Blob(ts, challenge, target), ts, challenge, target)
  {
    hide LittleEndian, FromLittleEndian;
    var blob := Blob(ts, challenge, target);
    assert blob[0..4] == Le32(0x101) && blob[4..8] == Le32(0) && blob[8..16] == Le64(ts);
    assert blob[16..24] == Le64(challenge) && blob[24..28] == Le32(0);
    LittleEndianRoundTrip(0x101, 4);
    LittleEndianRoundTrip(0, 4);
    LittleEndianRoundTrip(ts, 8);
    LittleEndianRoundTrip(challenge, 8);
    assert Pow256(4) == TWO32 && Pow256(8) == TWO64;
  }

  /** `smb_ntlm2_response`: the proof over the server challenge and the blob, then the blob. */
  method Response(hashV2: seq<byte>, srvChallenge: nat, blob: seq<byte>) returns (response: seq<byte>)
    requires |hashV2| == 16 && |blob| + 72 < TWO64
    ensures |response| == 16 + |blob|
    ensures response == RfcHmac(hashV2, Le64(srvChallenge) + blob) + blob
  {
    hide RfcHmac;
    var hmac := Hmac(hashV2, Le64(srvChallenge) + blob);
    response := hmac + blob;
  }

  /** `smb_ntlm2_session_key`: the key to exchange, encrypted for whoever knows the hash. */
  method SessionKey(hashV2: seq<byte>, ntlm2: seq<byte>, xkey: seq<byte>) returns (crypt: seq<byte>)
    requires |hashV2| == 16 && |ntlm2| >= 16 && |xkey| == 16
    ensures |crypt| == 16
    ensures Rc4.Cipher(RfcHmac(hashV2, ntlm2[..16]), crypt) == xkey
  {
    hide RfcHmac, Rc4.Cipher;
    var key := Hmac(hashV2, ntlm2[..16]);
    var rc4 := new Rc4.Context(key);
    var inbuf, outbuf := new byte[16], new byte[16];
    MemCopy(inbuf, 0, xkey);
    assert inbuf[..16] == inbuf[..][0..16] == xkey;
    rc4.Crypt(inbuf, outbuf, 16);
    crypt := outbuf[..16];
    CipherUnfolds(key, xkey);
    Rc4.CipherInvolution(key, xkey);
  }

  lemma CipherUnfolds(key: seq<byte>, data: seq<byte>)
    requires key != []
    ensures Rc4.Cipher(key, data) == XorSeq(data, Rc4.KeyStream(Rc4.Initial(key), |data|))
  {
  }

  // --- the token ----------------------------------------------------------------------------------

  const AUTH_SIZE: nat := 64  // sizeof(smb_ntlmssp_auth)

  const LM: nat := 0
  const NTLM: nat := 1
  const DOMAIN: nat := 2
  const USER: nat := 3
  const HOST: nat := 4
  const KEY: nat := 5

  /** Where the descriptor of a field is. */
  function SlotAt(slot: nat): nat { 12 + 8 * slot }

  /** Length, maximal length and offset of a value. */
  function Descriptor(length: nat, offset: nat): (d: seq<byte>)
    ensures |d| == 8
  {
    Le16(length) + Le16(length) + Le32(offset)
  }

  /** A value stored at `at`, with its descriptor in place. */
  predicate Holds(t: seq<byte>, slot: nat, at: nat, value: seq<byte>)
  {
    && slot < 6 && AUTH_SIZE <= at && at + |value| <= |t|
    && t[SlotAt(slot)..SlotAt(slot) + 8] == Descriptor(|value|, at)
    && t[at..at + |value|] == value
  }

  /** What a receiver reads through the descriptor of a field. */
  function ReadLength(t: seq<byte>, slot: nat): nat
    requires slot < 6 && |t| >= AUTH_SIZE
  {
    Field(t, SlotAt(slot), 2)
  }

  function ReadOffset(t: seq<byte>, slot: nat): nat
    requires slot < 6 && |t| >= AUTH_SIZE
  {
    Field(t, SlotAt(slot) + 4, 4)
  }

  lemma DescriptorParts(length: nat, offset: nat)
    ensures var d := Descriptor(length, offset);
            d[0..2] == Le16(length) && d[4..8] == Le32(offset)
  {
    hide Le16, Le32;
  }

  /** The receiver finds the value where it is; its length exactly if it fits 16 bits. */
  lemma FieldReadsBack(t: seq<byte>, slot: nat, at: nat, value: seq<byte>)
    requires Holds(t, slot, at, value) && at < 0x1_0000_0000
    ensures ReadOffset(t, slot) == at
    ensures ReadLength(t, slot) == |value| % 0x1_0000
    ensures ReadLength(t, slot) == |value| <==> |value| < 0x1_0000
    ensures |value| < 0x1_0000 ==> t[ReadOffset(t, slot)..ReadOffset(t, slot) + ReadLength(t, slot)] == value
  {
    hide LittleEndian, FromLittleEndian;
    DescriptorParts(|value|, at);
    var d := Descriptor(|value|, at);
    SliceOfSlice(t, SlotAt(slot), 8, 0, 2);
    SliceOfSlice(t, SlotAt(slot), 8, 4, 4);
    LittleEndianRoundTrip(|value|, 2);
    LittleEndianRoundTrip(at, 4);
    assert Pow256(2) == 0x1_0000 && Pow256(4) == 0x1_0000_0000;
  }

  /** `__AUTH_APPEND` on values: copy behind the last value, then fill in the descriptor. */
  function Appended(t: seq<byte>, slot: nat, cursor: nat, value: seq<byte>): (r: seq<byte>)
    requires slot < 6 && AUTH_SIZE + cursor + |value| <= |t|
    ensures |r| == |t|
  {
    Overwrite(Overwrite(t, AUTH_SIZE + cursor, value), SlotAt(slot), Descriptor(|value|, AUTH_SIZE + cursor))
  }

  /** Octets outside the part written over are untouched. */
  lemma OverwriteElsewhere(t: seq<byte>, at: nat, data: seq<byte>, from: nat, n: nat)
    requires at + |data| <= |t| && from + n <= |t|
    requires from + n <= at || at + |data| <= from
    ensures Overwrite(t, at, data)[from..from + n] == t[from..from + n]
  {
  }

  lemma AppendPlaces(t: seq<byte>, slot: nat, cursor: nat, value: seq<byte>)
    requires slot < 6 && AUTH_SIZE + cursor + |value| <= |t|
    ensures Holds(Appended(t, slot, cursor, value), slot, AUTH_SIZE + cursor, value)
  {
    hide Overwrite, Descriptor;
    var t1 := Overwrite(t, AUTH_SIZE + cursor, value);
    OverwriteElsewhere(t1, SlotAt(slot), Descriptor(|value|, AUTH_SIZE + cursor), AUTH_SIZE + cursor, |value|);
  }

  lemma AppendKeeps(t: seq<byte>, slot: nat, cursor: nat, value: seq<byte>, other: nat, at: nat, stored: seq<byte>)
    requires slot < 6 && AUTH_SIZE + cursor + |value| <= |t|
    requires Holds(t, other, at, stored) && other != slot && at + |stored| <= AUTH_SIZE + cursor
    ensures Holds(Appended(t, slot, cursor, value), other, at, stored)
  {
    hide Overwrite, Descriptor;
    var d := Descriptor(|value|, AUTH_SIZE + cursor);
    var t1 := Overwrite(t, AUTH_SIZE + cursor, value);
    OverwriteElsewhere(t, AUTH_SIZE + cursor, value, at, |stored|);
    OverwriteElsewhere(t, AUTH_SIZE + cursor, value, SlotAt(other), 8);
    OverwriteElsewhere(t1, SlotAt(slot), d, at, |stored|);
    OverwriteElsewhere(t1, SlotAt(slot), d, SlotAt(other), 8);
  }

  datatype Placed = Placed(slot: nat, value: seq<byte>)

  /** The octets the first `n` fields take up. */
  function Extent(fields: seq<Placed>, n: nat): nat
    requires n <= |fields|
  {
    if n == 0 then 0 else Extent(fields, n - 1) + |fields[n - 1].value|
  }

  lemma {:induction false} ExtentGrows(fields: seq<Placed>, m: nat, n: nat)
    requires m <= n <= |fields|
    ensures Extent(fields, m) <= Extent(fields, n)
  {
    if m < n { ExtentGrows(fields, m, n - 1); }
  }

  /** A field ends before the ones behind it begin. */
  lemma {:induction false} FieldEnds(fields: seq<Placed>, i: nat, n: nat)
    requires i < n <= |fields|
    ensures Extent(fields, i) + |fields[i].value| <= Extent(fields, n)
  {
    ExtentGrows(fields, i + 1, n);
  }

  lemma {:induction false} ExtentPrefix(fields: seq<Placed>, f: Placed, n: nat)
    requires n <= |fields|
    ensures Extent(fields + [f], n) == Extent(fields, n)
  {
    if n > 0 { ExtentPrefix(fields, f, n - 1); }
  }

  lemma ExtentSnoc(fields: seq<Placed>, f: Placed)
    ensures Extent(fields + [f], |fields| + 1) == Extent(fields, |fields|) + |f.value|
  {
    ExtentPrefix(fields, f, |fields|);
  }

  /** Every field in its place: contiguous from octet 64, in order, none overlapping another. */
  ghost predicate LaidOut(t: seq<byte>, fields: seq<Placed>)
  {
    && |t| >= AUTH_SIZE && AUTH_SIZE + Extent(fields, |fields|) <= |t|
    && (forall i :: 0 <= i < |fields| ==> Holds(t, fields[i].slot, AUTH_SIZE + Extent(fields, i), fields[i].value))
    && (forall i, j :: 0 <= i < j < |fields| ==> fields[i].slot != fields[j].slot)
  }

  lemma LaidOutAppend(t: seq<byte>, fields: seq<Placed>, f: Placed)
    requires LaidOut(t, fields) && f.slot < 6 && AUTH_SIZE + Extent(fields, |fields|) + |f.value| <= |t|
    requires forall i :: 0 <= i < |fields| ==> fields[i].slot != f.slot
    ensures LaidOut(Appended(t, f.slot, Extent(fields, |fields|), f.value), fields + [f])
    ensures Extent(fields + [f], |fields| + 1) == Extent(fields, |fields|) + |f.value|
  {
    hide Holds, Appended, Extent;
    var cursor, all := Extent(fields, |fields|), fields + [f];
    ExtentSnoc(fields, f);
    var t' := Appended(t, f.slot, cursor, f.value);
    ExtentPrefix(fields, f, |fields|);
    AppendPlaces(t, f.slot, cursor, f.value);
    forall i | 0 <= i < |all|
      ensures Holds(t', all[i].slot, AUTH_SIZE + Extent(all, i), all[i].value)
    {
      if i < |fields| {
        ExtentPrefix(fields, f, i);
        FieldEnds(fields, i, |fields|);
        AppendKeeps(t, f.slot, cursor, f.value, fields[i].slot, AUTH_SIZE + Extent(fields, i), fields[i].value);
      }
    }
  }

  class AuthToken {
    const data: array<byte>
    var cursor: nat
    ghost var fields: seq<Placed>

    ghost predicate Valid()
      reads this, data
    {
      LaidOut(data[..], fields) && cursor == Extent(fields, |fields|)
    }

    /** A zeroed token of `size` octets with signature, message type and flags. */
    constructor (size: nat)
      requires size >= AUTH_SIZE
      ensures Valid() && fields == [] && cursor == 0 && fresh(data) && data.Length == size
      ensures Headed(data[..])
    {
      hide Overwrite, Headed;
      data := new byte[size];
      cursor, fields := 0, [];
      new;
      MemSet(data, 0, 0, size);
      HeadWritten(data[..]);
      MemCopy(data, 0, Signature());
      MemCopy(data, 8, Le32(3));
      MemCopy(data, 60, Le32(0x60088215));
    }

    /** `__AUTH_APPEND`. */
    method Append(slot: nat, value: seq<byte>)
      requires Valid() && slot < 6 && AUTH_SIZE + cursor + |value| <= data.Length && Headed(data[..])
      requires forall i :: 0 <= i < |fields| ==> fields[i].slot != slot
      modifies this, data
      ensures Valid() && fields == old(fields) + [Placed(slot, value)] && Headed(data[..])
      ensures cursor == old(cursor) + |value|
    {
      hide LaidOut, Descriptor, Extent, Headed, Overwrite;
      LaidOutAppend(data[..], fields, Placed(slot, value));
      HeadStays(data[..], slot, cursor, value);
      MemCopy(data, AUTH_SIZE + cursor, value);
      MemCopy(data, SlotAt(slot), Descriptor(|value|, AUTH_SIZE + cursor));
      assert data[..] == Appended(old(data[..]), slot, cursor, value);
      cursor := cursor + |value|;
      fields := fields + [Placed(slot, value)];
    }

    /** A field that is stored only under a condition. */
    method AppendIf(present: bool, slot: nat, value: seq<byte>)
      requires Valid() && slot < 6 && Headed(data[..])
      requires present ==> AUTH_SIZE + cursor + |value| <= data.Length
      requires forall i :: 0 <= i < |fields| ==> fields[i].slot < slot
      modifies this, data
      ensures Valid() && fields == old(fields) + If(present, slot, value) && Headed(data[..])
      ensures forall i :: 0 <= i < |fields| ==> fields[i].slot <= slot
      ensures cursor == if present then old(cursor) + |value| else old(cursor)
    {
      hide LaidOut, Extent, Headed;
      if present { Append(slot, value); }
    }
  }

  function If(present: bool, slot: nat, value: seq<byte>): seq<Placed>
  {
    if present then [Placed(slot, value)] else []
  }

  function Signature(): (r: seq<byte>)
    ensures |r| == 8
  {
    [78, 84, 76, 77, 83, 83, 80, 0]  // "NTLMSSP", NUL
  }

  predicate Headed(t: seq<byte>)
  {
    |t| >= AUTH_SIZE && t[0..8] == Signature() && t[8..12] == Le32(3) && t[60..64] == Le32(0x60088215)
  }

  lemma HeadWritten(t: seq<byte>)
    requires |t| >= AUTH_SIZE
    ensures Headed(Overwrite(Overwrite(Overwrite(t, 0, Signature()), 8, Le32(3)), 60, Le32(0x60088215)))
  {
    hide Overwrite, Signature, Le32;
    var t1 := Overwrite(t, 0, Signature());
    var t2 := Overwrite(t1, 8, Le32(3));
    OverwriteElsewhere(t1, 8, Le32(3), 0, 8);
    OverwriteElsewhere(t2, 60, Le32(0x60088215), 0, 8);
    OverwriteElsewhere(t2, 60, Le32(0x60088215), 8, 4);
  }

  lemma HeadStays(t: seq<byte>, slot: nat, cursor: nat, value: seq<byte>)
    requires Headed(t) && slot < 6 && AUTH_SIZE + cursor + |value| <= |t|
    ensures Headed(Appended(t, slot, cursor, value))
  {
    hide Overwrite, Descriptor, Le32;
    var d := Descriptor(|value|, AUTH_SIZE + cursor);
    var t1 := Overwrite(t, AUTH_SIZE + cursor, value);
    OverwriteElsewhere(t, AUTH_SIZE + cursor, value, 0, 8);
    OverwriteElsewhere(t, AUTH_SIZE + cursor, value, 8, 4);
    OverwriteElsewhere(t, AUTH_SIZE + cursor, value, 60, 4);
    OverwriteElsewhere(t1, SlotAt(slot), d, 0, 8);
    OverwriteElsewhere(t1, SlotAt(slot), d, 8, 4);
    OverwriteElsewhere(t1, SlotAt(slot), d, 60, 4);
  }

  /** The fields of an AUTHENTICATE message in the order they are stored; empty credentials are left out. */
  function Present(anonymous: bool, lm2: seq<byte>, ntlm2: seq<byte>, domain: seq<byte>, user: seq<byte>,
                   host: seq<byte>, key: seq<byte>, utf16: Utf16): seq<Placed>
  {
    If(!anonymous, LM, lm2) + If(!anonymous, NTLM, ntlm2) + If(domain != [], DOMAIN, utf16(domain))
    + If(user != [], USER, utf16(user)) + If(host != [], HOST, utf16(host)) + [Placed(KEY, key)]
  }

  function TokenSize(host: seq<byte>, domain: seq<byte>, user: seq<byte>, blobSize: nat): nat
  {
    var size := AUTH_SIZE + |host| * 2 + |domain| * 2 + |user| * 2 + blobSize + 16 + 8 + 16 + 16;
    if size % 2 == 1 then size + 1 else size
  }

  lemma KeyIsPresent(key: seq<byte>)
    ensures If(true, KEY, key) == [Placed(KEY, key)]
  {
  }

  lemma TokenHasRoom(host: seq<byte>, domain: seq<byte>, user: seq<byte>, blobSize: nat)
    ensures TokenSize(host, domain, user, blobSize)
         >= AUTH_SIZE + 24 + (blobSize + 16) + 2 * |domain| + 2 * |user| + 2 * |host| + 16
  {
  }

  /** The end of `smb_ntlmssp_response`: allocation and layout of the token. */
  method MakeToken(lm2: seq<byte>, ntlm2: seq<byte>, host: seq<byte>, domain: seq<byte>, user: seq<byte>,
                   password: seq<byte>, key: seq<byte>, utf16: Utf16) returns (token: seq<byte>)
    requires |lm2| == 24 && |ntlm2| >= 16 && |key| == 16
    requires |utf16(domain)| <= 2 * |domain| && |utf16(user)| <= 2 * |user| && |utf16(host)| <= 2 * |host|
    ensures |token| == TokenSize(host, domain, user, |ntlm2| - 16) && Headed(token)
    ensures LaidOut(token, Present(domain == [] && user == [] && password == [], lm2, ntlm2, domain, user, host, key, utf16))
  {
    hide LaidOut, Extent, Headed, TokenSize, If;
    assert If(true, KEY, key) == [Placed(KEY, key)] by { KeyIsPresent(key); }
    TokenHasRoom(host, domain, user, |ntlm2| - 16);
    var t := new AuthToken(TokenSize(host, domain, user, |ntlm2| - 16));
    var known := domain != [] || user != [] || password != [];
    t.AppendIf(known, LM, lm2);
    assert t.fields == If(known, LM, lm2);
    t.AppendIf(known, NTLM, ntlm2);
    t.AppendIf(domain != [], DOMAIN, utf16(domain));
    t.AppendIf(user != [], USER, utf16(user));
    t.AppendIf(host != [], HOST, utf16(host));
    t.AppendIf(true, KEY, key);
    assert t.fields == Present(!known, lm2, ntlm2, domain, user, host, key, utf16);
    token := t.data[..];
  }

  // --- what a receiver makes of the token ---------------------------------------------------------

  /** A field read through its descriptor, if the token reaches that far. */
  function ReadField(t: seq<byte>, slot: nat): seq<byte>
    requires slot < 6 && |t| >= AUTH_SIZE
  {
    ReadVia(t, SlotAt(slot))
  }

  /** The value whose length, maximal length and offset stand at an octet of the fixed part. */
  function ReadVia(t: seq<byte>, descriptor: nat): seq<byte>
    requires descriptor + 8 <= |t|
  {
    var at, n := Field(t, descriptor + 4, 4), Field(t, descriptor, 2);
    if at + n <= |t| then t[at..at + n] else []
  }

  /** Every field of a laid out token whose length fits 16 bits reads back as it was stored. */
  lemma LaidOutReadsBack(t: seq<byte>, fields: seq<Placed>, f: Placed)
    requires LaidOut(t, fields) && f in fields && |f.value| < TWO16 && |t| < TWO32
    ensures f.slot < 6 && ReadField(t, f.slot) == f.value
  {
    hide Extent, Field;
    var i :| 0 <= i < |fields| && fields[i] == f;
    assert Holds(t, fields[i].slot, AUTH_SIZE + Extent(fields, i), fields[i].value);
    FieldReadsBack(t, f.slot, AUTH_SIZE + Extent(fields, i), f.value);
  }

  /** The proof a response begins with is the one for the blob behind it. */
  predicate ProofHolds(hashV2: seq<byte>, srvChallenge: nat, response: seq<byte>)
  {
    |response| >= 16 && response[..16] == RfcHmac(hashV2, Le64(srvChallenge) + response[16..])
  }

  /** What the client drew and was given for one authentication. */
  datatype Inputs = Inputs(srvChallenge: nat, srvTs: nat, userChallenge: nat, lmChallenge: nat, xkey: seq<byte>,
                           host: seq<byte>, domain: seq<byte>, user: seq<byte>, password: seq<byte>, target: seq<byte>)
  {
    predicate Anonymous() { domain == [] && user == [] && password == [] }

    function ClientBlob(): seq<byte> { Blob(srvTs, userChallenge, target) }
  }

  /** Every field's length fits the 16 bits its descriptor has for it. */
  predicate FieldsFit(x: Inputs, utf16: Utf16)
  {
    && 16 + |x.ClientBlob()| < TWO16
    && |utf16(x.domain)| < TWO16 && |utf16(x.user)| < TWO16 && |utf16(x.host)| < TWO16
  }

  /** The widths of the inputs: no number is wider, and nothing longer, than its C type can say. */
  predicate Hashable(x: Inputs, utf16: Utf16)
  {
    && |utf16(x.password)| < TWO64 && |x.target| < TWO32
    && x.srvTs < TWO64 && x.userChallenge < TWO64
    && |utf16(Upper(if |x.user| > 63 then x.user[..63] else x.user))| + |utf16(x.domain)| + 64 < TWO64
  }

  /**
   A server that knows the hash and reads the token at the octets section 2.2.1.3 of [MS-NLMP]
   names: both proofs hold, the blob says what the client put there, the names are the converted
   ones, and the key field decrypts to the key.
   */
  predicate Accepts(token: seq<byte>, hashV2: seq<byte>, x: Inputs, utf16: Utf16)
    requires |token| >= AUTH_SIZE
  {
    var ntlm2 := ReadVia(token, 20);
    && ProofHolds(hashV2, x.srvChallenge, ntlm2)
    && BlobHolds(ntlm2[16..], x.srvTs, x.userChallenge, x.target)
    && ProofHolds(hashV2, x.srvChallenge, ReadVia(token, 12))
    && Rc4.Cipher(RfcHmac(hashV2, ntlm2[..16]), ReadVia(token, 52)) == x.xkey
    && (x.domain != [] ==> ReadVia(token, 28) == utf16(x.domain))
    && (x.user != [] ==> ReadVia(token, 36) == utf16(x.user))
    && (x.host != [] ==> ReadVia(token, 44) == utf16(x.host))
  }

  lemma ProofOfResponse(hashV2: seq<byte>, srvChallenge: nat, blob: seq<byte>)
    ensures var response := RfcHmac(hashV2, Le64(srvChallenge) + blob) + blob;
            ProofHolds(hashV2, srvChallenge, response) && response[16..] == blob
  {
    hide RfcHmac;
  }

  /** The fields a token with credentials holds. */
  lemma PresentHolds(lm2: seq<byte>, ntlm2: seq<byte>, domain: seq<byte>, user: seq<byte>, host: seq<byte>,
                     key: seq<byte>, utf16: Utf16)
    ensures var fields := Present(false, lm2, ntlm2, domain, user, host, key, utf16);
            && Placed(LM, lm2) in fields && Placed(NTLM, ntlm2) in fields && Placed(KEY, key) in fields
            && (domain != [] ==> Placed(DOMAIN, utf16(domain)) in fields)
            && (user != [] ==> Placed(USER, utf16(user)) in fields)
            && (host != [] ==> Placed(HOST, utf16(host)) in fields)
  {
  }

  /** `smb_ntlmssp_response`, with the random numbers given. */
  method Authenticate(x: Inputs, utf16: Utf16) returns (token: seq<byte>)
    requires |x.xkey| == 16 && Hashable(x, utf16)
    requires |utf16(x.domain)| <= 2 * |x.domain| && |utf16(x.user)| <= 2 * |x.user| && |utf16(x.host)| <= 2 * |x.host|
    ensures |token| == TokenSize(x.host, x.domain, x.user, |x.ClientBlob()|) && Headed(token)
    ensures !x.Anonymous() && FieldsFit(x, utf16) && |token| < TWO32 ==> Accepts(token, HashV2(x.user, x.password, x.domain, utf16), x, utf16)
    ensures !x.Anonymous() && FieldsFit(x, utf16) && |token| < TWO32 && Distributes(utf16) && |x.user| <= 63 ==>
              Accepts(token, NtowfV2(x.user, x.password, x.domain, utf16), x, utf16)
  {
    hide RfcHmac, HashV2, NtowfV2, Distributes, Rc4.Cipher, LaidOut, Present, Headed, TokenSize, Blob, BlobHolds, Le64, ReadVia;
    var hash := Ntlm2Hash(x.user, x.password, x.domain, utf16);
    var blob := Blob(x.srvTs, x.userChallenge, x.target);
    var lm2 := Response(hash, x.srvChallenge, Le64(x.lmChallenge));
    var ntlm2 := Response(hash, x.srvChallenge, blob);
    var key := SessionKey(hash, ntlm2, x.xkey);
    token := MakeToken(lm2, ntlm2, x.host, x.domain, x.user, x.password, key, utf16);
    if !x.Anonymous() && FieldsFit(x, utf16) && |token| < TWO32 {
      BlobFields(x.srvTs, x.userChallenge, x.target);
      ProofOfResponse(hash, x.srvChallenge, blob);
      ProofOfResponse(hash, x.srvChallenge, Le64(x.lmChallenge));
      AllReadBack(token, lm2, ntlm2, x, key, utf16);
    }
  }

  lemma AllReadBack(t: seq<byte>, lm2: seq<byte>, ntlm2: seq<byte>, x: Inputs, key: seq<byte>, utf16: Utf16)
    requires LaidOut(t, Present(false, lm2, ntlm2, x.domain, x.user, x.host, key, utf16)) && |t| < TWO32
    requires FieldsFit(x, utf16) && |ntlm2| == 16 + |x.ClientBlob()| && |lm2| == 24 && |key| == 16
    ensures ReadField(t, LM) == lm2 && ReadField(t, NTLM) == ntlm2 && ReadField(t, KEY) == key
    ensures x.domain != [] ==> ReadField(t, DOMAIN) == utf16(x.domain)
    ensures x.user != [] ==> ReadField(t, USER) == utf16(x.user)
    ensures x.host != [] ==> ReadField(t, HOST) == utf16(x.host)
  {
    hide Present, ReadField;
    var fields := Present(false, lm2, ntlm2, x.domain, x.user, x.host, key, utf16);
    PresentHolds(lm2, ntlm2, x.domain, x.user, x.host, key, utf16);
    LaidOutReadsBack(t, fields, Placed(LM, lm2));
    LaidOutReadsBack(t, fields, Placed(NTLM, ntlm2));
    LaidOutReadsBack(t, fields, Placed(KEY, key));
    if x.domain != [] { LaidOutReadsBack(t, fields, Placed(DOMAIN, utf16(x.domain))); }
    if x.user != [] { LaidOutReadsBack(t, fields, Placed(USER, utf16(x.user))); }
    if x.host != [] { LaidOutReadsBack(t, fields, Placed(HOST, utf16(x.host))); }
  }
}
