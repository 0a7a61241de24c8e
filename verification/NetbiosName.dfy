/** First-level NetBIOS names (section 14.1 of RFC 1001) and the name query: src/netbios_utils.c, src/netbios_query.c. */
module NetbiosName {
  import opened Bytes
  import opened Memory

  const NAME_LENGTH: nat := 15
  const SPACE: byte := 0x20

  /** A `char` is signed: octets from 128 on are negative. */
  function Signed(c: byte): int
  {
    if c < 128 then c else c - 256
  }

  /** `nibble_encode`: the two letters of a character. */
  function HighLetter(c: byte): byte { Signed(ToUpper(c)) / 16 + 65 }
  function LowLetter(c: byte): byte { Signed(ToUpper(c)) % 16 + 65 }

  /** `nibble_decode`. */
  function NibbleDecode(c1: byte, c2: byte): byte
  {
    ((c1 - 65) * 16 + (c2 - 65)) % 256
  }

  lemma NibbleRoundTrip(c: byte)
    ensures NibbleDecode(HighLetter(c), LowLetter(c)) == ToUpper(c)
  {
    var v := Signed(ToUpper(c));
    assert v / 16 * 16 + v % 16 == v;
  }

  /** Only letters from 'A' to 'P' come out, exactly if the character is ASCII. */
  lemma NibbleLetters(c: byte)
    ensures 65 <= LowLetter(c) <= 80
    ensures 65 <= HighLetter(c) <= 80 <==> c < 128
    ensures 57 <= HighLetter(c) <= 72
  {
  }

  // --- names ------------------------------------------------------------------------------------

  /** What a name stands for on the wire: upper case, at most 15 characters, padded with spaces. */
  function Normal(name: seq<byte>): (r: seq<byte>)
    ensures |r| == NAME_LENGTH
  {
    var n := if |name| > NAME_LENGTH then NAME_LENGTH else |name|;
    seq(NAME_LENGTH, i requires 0 <= i < NAME_LENGTH => if i < n then ToUpper(name[i]) else SPACE)
  }

  function Letters(s: seq<byte>): (r: seq<byte>)
    ensures |r| == 2 * |s|
  {
    if s == [] then []
    else
      var front := s[..|s| - 1];
      Letters(front) + [HighLetter(s[|s| - 1]), LowLetter(s[|s| - 1])]
  }

  lemma {:induction false} LettersAt(s: seq<byte>, i: nat)
    requires i < |s|
    ensures Letters(s)[2 * i] == HighLetter(s[i]) && Letters(s)[2 * i + 1] == LowLetter(s[i])
  {
    if i < |s| - 1 { LettersAt(s[..|s| - 1], i); }
  }

  /** `netbios_name_level1_encode` into a 33-octet buffer; `name` ends before its terminator. */
  method Level1Encode(name: seq<byte>, kind: byte) returns (encoded: array<byte>)
    ensures fresh(encoded) && encoded[..] == Letters(Normal(name) + [kind]) + [0]
  {
    hide HighLetter, LowLetter, Normal, Letters;
    LettersNone();
    encoded := new byte[33];
    var length := if |name| > NAME_LENGTH then NAME_LENGTH else |name|;
    ghost var s := Normal(name) + [kind];
    for i := 0 to NAME_LENGTH
      invariant encoded[..2 * i] == Letters(s[..i])
    {
      if i < length {
        encoded[2 * i] := HighLetter(name[i]);
        encoded[2 * i + 1] := LowLetter(name[i]);
      } else {
        encoded[2 * i] := 'C' as int;
        encoded[2 * i + 1] := 'A' as int;
      }
      LettersOfNormal(name, i);
      LettersStep(s, i);
      assert encoded[..2 * (i + 1)] == encoded[..2 * i] + [encoded[2 * i], encoded[2 * i + 1]];
    }
    encoded[30] := HighLetter(kind);
    encoded[31] := LowLetter(kind);
    encoded[32] := 0;
    LettersStep(s, NAME_LENGTH);
    assert s[..16] == s;
    assert encoded[..] == encoded[..30] + [encoded[30], encoded[31]] + [encoded[32]];
  }

  /** A character and its normal form have the same letters; the letters of a space are "CA". */
  lemma LettersOfNormal(name: seq<byte>, i: nat)
    requires i < NAME_LENGTH
    ensures if i < |name| then HighLetter(Normal(name)[i]) == HighLetter(name[i]) && LowLetter(Normal(name)[i]) == LowLetter(name[i])
            else HighLetter(Normal(name)[i]) == 'C' as int && LowLetter(Normal(name)[i]) == 'A' as int
  {
  }

  lemma LettersNone()
    ensures Letters([]) == []
  {
  }

  lemma LettersStep(s: seq<byte>, i: nat)
    requires i < |s|
    ensures Letters(s[..i + 1]) == Letters(s[..i]) + [HighLetter(s[i]), LowLetter(s[i])]
  {
    assert s[..i + 1][..i] == s[..i];
  }

  /** `netbios_name_level1_decode` into a 16-octet buffer. */
  method Level1Decode(encoded: seq<byte>) returns (name: array<byte>)
    requires |encoded| >= 30
    ensures fresh(name) && name.Length == 16 && name[15] == 0
    ensures forall i :: 0 <= i < NAME_LENGTH ==> name[i] == NibbleDecode(encoded[2 * i], encoded[2 * i + 1])
  {
    name := new byte[16];
    for i := 0 to NAME_LENGTH
      invariant forall j :: 0 <= j < i ==> name[j] == NibbleDecode(encoded[2 * j], encoded[2 * j + 1])
    {
      name[i] := NibbleDecode(encoded[2 * i], encoded[2 * i + 1]);
    }
    name[NAME_LENGTH] := 0;
  }

  /** Decoding an encoded name gives its normal form, for every name and type. */
  method EncodeDecode(name: seq<byte>, kind: byte) returns (decoded: array<byte>)
    ensures decoded[..] == Normal(name) + [0]
  {
    var encoded := Level1Encode(name, kind);
    ghost var s := Normal(name) + [kind];
    decoded := Level1Decode(encoded[..]);
    forall i | 0 <= i < NAME_LENGTH
      ensures decoded[i] == Normal(name)[i]
    {
      assert encoded[..][2 * i] == Letters(s)[2 * i] && encoded[..][2 * i + 1] == Letters(s)[2 * i + 1];
      LettersAt(s, i);
      NibbleRoundTrip(s[i]);
      NormalIsUpper(name, i);
    }
  }

  lemma NormalIsUpper(name: seq<byte>, i: nat)
    requires i < NAME_LENGTH
    ensures ToUpper(Normal(name)[i]) == Normal(name)[i]
  {
  }

  /** Two names are encoded alike exactly if they have the same normal form. */
  lemma EncodingIsInjective(a: seq<byte>, b: seq<byte>)
    ensures Letters(Normal(a)) == Letters(Normal(b)) <==> Normal(a) == Normal(b)
  {
    if Letters(Normal(a)) == Letters(Normal(b)) {
      forall i | 0 <= i < NAME_LENGTH
        ensures Normal(a)[i] == Normal(b)[i]
      {
        NibbleRoundTrip(Normal(a)[i]);
        NibbleRoundTrip(Normal(b)[i]);
        NormalIsUpper(a, i);
        NormalIsUpper(b, i);
        LettersAt(Normal(a), i);
        LettersAt(Normal(b), i);
      }
    }
  }

  // --- the query ----------------------------------------------------------------------------------

  /** The length of the string in a buffer: the index of its first zero octet. */
  function StrLen(s: seq<byte>): (n: nat)
    ensures n <= |s| && (n < |s| ==> s[n] == 0) && forall i :: 0 <= i < n ==> s[i] != 0
  {
    if s == [] || s[0] == 0 then 0 else 1 + StrLen(s[1..])
  }

  /** `netbios_name_encode`: a length octet, 32 letters, a terminator. */
  method NameEncode(name: seq<byte>, kind: byte) returns (encoded: seq<byte>)
    ensures encoded == [32] + Letters(Normal(name) + [kind]) + [0]
    ensures |encoded| == 34 && StrLen(encoded) == 33
  {
    var level1 := Level1Encode(name, kind);
    encoded := [32] + level1[..];
    NoZeroInside(Normal(name) + [kind]);
    ghost var letters := Letters(Normal(name) + [kind]);
    assert forall i :: 0 <= i < 32 ==> encoded[i + 1] == letters[i] != 0;
    assert encoded[33] == 0 && forall i :: 0 <= i < 33 ==> encoded[i] != 0;
  }

  lemma NoZeroInside(s: seq<byte>)
    ensures forall i :: 0 <= i < |Letters(s)| ==> Letters(s)[i] != 0
  {
    forall i | 0 <= i < |Letters(s)|
      ensures Letters(s)[i] != 0
    {
      NibbleLetters(s[i / 2]);
      LettersAt(s, i / 2);
      assert i == 2 * (i / 2) || i == 2 * (i / 2) + 1;
    }
  }

  class Query {
    const payload: array<byte>
    var cursor: nat

    ghost predicate Valid()
      reads this
    {
      cursor <= payload.Length
    }

    constructor (payloadSize: nat)
      ensures Valid() && cursor == 0 && payload.Length == payloadSize && fresh(payload)
    {
      payload := new byte[payloadSize];
      cursor := 0;
    }

    /** `netbios_query_append`: data that does not fit is dropped. */
    method Append(data: seq<byte>) returns (ok: bool)
      requires Valid()
      modifies this, payload
      ensures Valid() && ok == (old(cursor) + |data| <= payload.Length)
      ensures payload[..cursor] == if ok then old(payload[..cursor]) + data else old(payload[..cursor])
    {
      if payload.Length - cursor < |data| { return false; }
      MemCopy(payload, cursor, data);
      cursor := cursor + |data|;
      ok := true;
    }
  }

  /** `NETBIOS_WILDCARD`: the query sent by broadcast and to every host that answers it. */
  function Wildcard(): (r: seq<byte>)
    ensures |r| == 34
  {
    [32, 67, 75] + Fill(65, 30) + [0]
  }

  /** It is the encoding of an asterisk followed by zero octets. */
  lemma WildcardEncodesAsterisk()
    ensures Wildcard() == [32] + Letters([0x2a] + Fill(0, 15)) + [0]
    ensures StrLen(Wildcard()) == 33
  {
    var s := [0x2a] + Fill(0, 15);
    var letters := Letters(s);
    forall i | 0 <= i < 32
      ensures letters[i] == Wildcard()[i + 1] != 0
    {
      LettersAt(s, i / 2);
      assert i == 2 * (i / 2) || i == 2 * (i / 2) + 1;
      assert HighLetter(0x2a) == 67 && LowLetter(0x2a) == 75 && HighLetter(0) == 65 && LowLetter(0) == 65;
    }
    assert Wildcard()[33] == 0 && forall i :: 0 <= i < 33 ==> Wildcard()[i] != 0;
  }

  /** The payload of a query for a 33-octet string: three appends, whose results are not checked, fill it exactly. */
  method QueryPayload(encoded: seq<byte>, nbstat: bool) returns (payload: seq<byte>)
    requires |encoded| == 34 && StrLen(encoded) == 33
    ensures |payload| == 38
    ensures payload == encoded + [0, if nbstat then 0x21 else 0x20] + [0, 1]
  {
    var q := new Query(34 + 4);
    var ok := q.Append(encoded[..StrLen(encoded) + 1]);
    assert q.payload[..q.cursor] == encoded;
    ok := q.Append([0, if nbstat then 0x21 else 0x20]);
    ok := q.Append([0, 1]);
    payload := q.payload[..q.cursor];
  }

  /** The query for a host by its name. */
  method NameQuery(name: seq<byte>, kind: byte, nbstat: bool) returns (payload: seq<byte>)
    ensures |payload| == 38
    ensures payload == [32] + Letters(Normal(name) + [kind]) + [0] + [0, if nbstat then 0x21 else 0x20] + [0, 1]
  {
    var encoded := NameEncode(name, kind);
    payload := QueryPayload(encoded, nbstat);
  }

  /** The query of the discovery thread. */
  method WildcardQuery(nbstat: bool) returns (payload: seq<byte>)
    ensures |payload| == 38
    ensures payload == [32] + Letters([0x2a] + Fill(0, 15)) + [0] + [0, if nbstat then 0x21 else 0x20] + [0, 1]
  {
    WildcardEncodesAsterisk();
    payload := QueryPayload(Wildcard(), nbstat);
  }
}
