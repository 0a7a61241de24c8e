/** Words, registers and rotations shared by the MD5 and MD4 block transforms. */
module DigestWords {
  import opened Bytes

  type word = bv32

  datatype Regs = Regs(a: word, b: word, c: word, d: word)

  /** The little-endian word at octet `at`, as SET and GET read it. */
  function WordAt(block: seq<byte>, at: nat): word
    requires at + 4 <= |block|
  {
    block[at] as word | (block[at + 1] as word << 8) | (block[at + 2] as word << 16) | (block[at + 3] as word << 24)
  }

  function Words(block: seq<byte>): (x: seq<word>)
    requires |block| == 64
    ensures |x| == 16
  {
    seq(16, i requires 0 <= i < 16 => WordAt(block, 4 * i))
  }

  function WordBytes(w: word): (r: seq<byte>)
    ensures |r| == 4
  {
    [(w & 0xff) as bv8 as int, ((w >> 8) & 0xff) as bv8 as int,
     ((w >> 16) & 0xff) as bv8 as int, ((w >> 24) & 0xff) as bv8 as int]
  }

  /** The sixteen octets `result` receives: A, B, C, D, each low-order octet first. */
  function RegBytes(r: Regs): (s: seq<byte>)
    ensures |s| == 16
  {
    WordBytes(r.a) + WordBytes(r.b) + WordBytes(r.c) + WordBytes(r.d)
  }

  function AddRegs(r: Regs, s: Regs): Regs
  {
    Regs(r.a + s.a, r.b + s.b, r.c + s.c, r.d + s.d)
  }

  // --- the byte order of the RFCs -------------------------------------------------------------------

  /** Section 2 of RFC 1321: four octets are a word with the low-order octet given first. */
  function RfcWord(s: seq<byte>, at: nat): word
    requires at + 4 <= |s|
  {
    FieldBound(s, at, 4);
    assert Pow256(4) == TWO32;
    Field(s, at, 4) as word
  }

  function RfcWords(block: seq<byte>): (x: seq<word>)
    requires |block| == 64
    ensures |x| == 16
  {
    seq(16, i requires 0 <= i < 16 => RfcWord(block, 4 * i))
  }

  /** Section 3.5: A, B, C, D, beginning with the low-order octet of A. */
  function RfcOctets(r: Regs): (s: seq<byte>)
    ensures |s| == 16
  {
    Le32(r.a as int) + Le32(r.b as int) + Le32(r.c as int) + Le32(r.d as int)
  }

  /** Section 3.3: the registers whose octets, low-order first, are the given ones. */
  function RegsOf(s: seq<byte>): Regs
    requires |s| == 16
  {
    Regs(RfcWord(s, 0), RfcWord(s, 4), RfcWord(s, 8), RfcWord(s, 12))
  }

  /** Four octets put together with shifts. */
  function Joined(a: bv8, b: bv8, c: bv8, d: bv8): word
  {
    (a as word) | (b as word << 8) | (c as word << 16) | (d as word << 24)
  }

  function Weighted(a: int, b: int, c: int, d: int): int
  {
    a + 256 * b + 65536 * c + 16777216 * d
  }

  lemma OneOctet(a: byte)
    ensures a as word == (a as bv8) as word && a as bv8 as int == a
  {
  }

  lemma TwoOctets(low: bv8, high: bv8)
    ensures ((high as bv16 << 8) | low as bv16) as int == 256 * (high as int) + low as int
  {
  }

  lemma TwoHalves(low: bv16, high: bv16)
    ensures ((high as word << 16) | low as word) as int == 65536 * (high as int) + low as int
  {
  }

  lemma JoinedHalves(a: bv8, b: bv8, c: bv8, d: bv8)
    ensures Joined(a, b, c, d)
         == ((((d as bv16 << 8) | c as bv16) as word) << 16) | (((b as bv16 << 8) | a as bv16) as word)
  {
  }

  lemma JoinedValue(a: bv8, b: bv8, c: bv8, d: bv8)
    ensures Joined(a, b, c, d) as int == Weighted(a as int, b as int, c as int, d as int)
  {
    hide Joined;
    JoinedHalves(a, b, c, d);
    TwoOctets(a, b);
    TwoOctets(c, d);
    TwoHalves((b as bv16 << 8) | a as bv16, (d as bv16 << 8) | c as bv16);
  }

  lemma WordAtJoins(block: seq<byte>, at: nat)
    requires at + 4 <= |block|
    ensures WordAt(block, at)
         == Joined(block[at] as bv8, block[at + 1] as bv8, block[at + 2] as bv8, block[at + 3] as bv8)
  {
    OneOctet(block[at]);
    OneOctet(block[at + 1]);
    OneOctet(block[at + 2]);
    OneOctet(block[at + 3]);
  }

  lemma FourFromLittleEndian(s: seq<byte>)
    requires |s| == 4
    ensures FromLittleEndian(s) == Weighted(s[0], s[1], s[2], s[3])
  {
    var a: int, b: int, c: int, d: int := s[0], s[1], s[2], s[3];
    assert s[1..][1..] == s[2..] && s[2..][1..] == s[3..] && s[3..][1..] == [];
    assert FromLittleEndian(s[3..]) == d;
    assert FromLittleEndian(s[2..]) == c + 256 * d;
    assert FromLittleEndian(s[1..]) == b + 256 * (c + 256 * d);
  }

  /** The word read with shifts is the little-endian number in the four octets. */
  lemma WordAtIsLittleEndian(block: seq<byte>, at: nat)
    requires at + 4 <= |block|
    ensures WordAt(block, at) as int == FromLittleEndian(block[at..at + 4])
    ensures WordAt(block, at) == RfcWord(block, at)
  {
    hide WordAt, Joined, FromLittleEndian;
    FourFromLittleEndian(block[at..at + 4]);
    WordAtJoins(block, at);
    JoinedValue(block[at] as bv8, block[at + 1] as bv8, block[at + 2] as bv8, block[at + 3] as bv8);
    OneOctet(block[at]);
    OneOctet(block[at + 1]);
    OneOctet(block[at + 2]);
    OneOctet(block[at + 3]);
    ThereAndBack(WordAt(block, at));
  }

  lemma ThereAndBack(w: word)
    ensures (w as int) as word == w
  {
  }

  lemma WordsMatch(block: seq<byte>)
    requires |block| == 64
    ensures Words(block) == RfcWords(block)
  {
    hide WordAt, RfcWord;
    forall i | 0 <= i < 16 ensures WordAt(block, 4 * i) == RfcWord(block, 4 * i) {
      WordAtIsLittleEndian(block, 4 * i);
    }
  }

  lemma WordBytesJoin(w: word)
    ensures w == Joined((w & 0xff) as bv8, ((w >> 8) & 0xff) as bv8, ((w >> 16) & 0xff) as bv8, ((w >> 24) & 0xff) as bv8)
  {
  }

  lemma WordBytesValue(w: word)
    ensures w as int == Weighted(WordBytes(w)[0], WordBytes(w)[1], WordBytes(w)[2], WordBytes(w)[3])
  {
    hide Joined, Weighted;
    WordBytesJoin(w);
    JoinedValue((w & 0xff) as bv8, ((w >> 8) & 0xff) as bv8, ((w >> 16) & 0xff) as bv8, ((w >> 24) & 0xff) as bv8);
  }

  lemma WordBytesAreLittleEndian(w: word)
    ensures WordBytes(w) == Le32(w as int)
  {
    hide WordBytes, Weighted;
    WordBytesValue(w);
    FourFromLittleEndian(WordBytes(w));
    LittleEndianOfFrom(WordBytes(w));
  }

  /** The result is the registers' values, each with its low-order octet first. */
  lemma RegBytesAreLittleEndian(r: Regs)
    ensures RegBytes(r) == RfcOctets(r)
  {
    hide WordBytes, Le32;
    WordBytesAreLittleEndian(r.a);
    WordBytesAreLittleEndian(r.b);
    WordBytesAreLittleEndian(r.c);
    WordBytesAreLittleEndian(r.d);
  }

  /** The rotation as STEP spells it, with two shifts. */
  function Rotate(w: word, s: word): word
    requires 0 < s < 32
  {
    (w << s) | (w >> (32 - s))
  }

  /** A circular shift: the upper half of two copies of the word shifted as one. */
  function CircularShift(w: word, s: word): word
    requires 0 < s < 32
  {
    ((((((w as bv64) << 32) | (w as bv64)) << s) >> 32) & 0xffff_ffff) as word
  }

  lemma TwoShifts(w: word, s: word)
    requires 0 < s < 32
    ensures (w << s) | (w >> (32 - s)) == ((((((w as bv64) << 32) | (w as bv64)) << s) >> 32) & 0xffff_ffff) as word
  {
  }

  /** The two shifts make the circular shift the RFCs ask for. */
  lemma RotateIsCircular(w: word, s: word)
    requires 0 < s < 32
    ensures Rotate(w, s) == CircularShift(w, s)
  {
    TwoShifts(w, s);
  }
}
