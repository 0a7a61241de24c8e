/**
 The block transforms of MD5 and MD4: the unrolled implementations of contrib/mdx/md5.c and md4.c
 against section 3.4 of RFC 1321 and of RFC 1320. Both run 16 operations a round on four registers
 and differ in what an operation adds, selects and rotates.
 */
module DigestBlocks {
  import opened Bytes
  import opened DigestWords

  datatype Algorithm = Md4 | Md5
  {
    function Operations(): nat { if this.Md5? then 64 else 48 }
  }

  // --- the RFCs -----------------------------------------------------------------------------------

  function RfcF(x: word, y: word, z: word): word { (x & y) | (!x & z) }
  function RfcMd5G(x: word, y: word, z: word): word { (x & z) | (y & !z) }
  function RfcMd4G(x: word, y: word, z: word): word { (x & y) | (x & z) | (y & z) }
  function RfcH(x: word, y: word, z: word): word { x ^ y ^ z }
  function RfcI(x: word, y: word, z: word): word { y ^ (x | !z) }

  function RfcAux(alg: Algorithm, i: nat, x: word, y: word, z: word): word
  {
    if i < 16 then RfcF(x, y, z)
    else if i < 32 then (if alg.Md5? then RfcMd5G(x, y, z) else RfcMd4G(x, y, z))
    else if i < 48 then RfcH(x, y, z)
    else RfcI(x, y, z)
  }

  /** Which message word operation `i` adds. */
  function Index(alg: Algorithm, i: nat): (k: nat)
    ensures k < 16
  {
    if i < 16 then i
    else match alg
      case Md5 => (if i < 32 then (5 * i + 1) % 16 else if i < 48 then (3 * i + 5) % 16 else (7 * i) % 16)
      case Md4 => (if i < 32 then 4 * (i % 4) + (i - 16) / 4
                   else 8 * (i % 2) + 4 * (i / 2 % 2) + 2 * (i / 4 % 2) + i / 8 % 2)
  }

  /** By how much operation `i` rotates: four counts a round, used in turn. */
  function Shift(alg: Algorithm, i: nat): (s: nat)
    ensures 0 < s < 32
  {
    match alg
    case Md5 =>
      (if i < 16 then Turn(i, 7, 12, 17, 22) else if i < 32 then Turn(i, 5, 9, 14, 20)
       else if i < 48 then Turn(i, 4, 11, 16, 23) else Turn(i, 6, 10, 15, 21))
    case Md4 =>
      (if i < 16 then Turn(i, 3, 7, 11, 19) else if i < 32 then Turn(i, 3, 5, 9, 13) else Turn(i, 3, 9, 11, 15))
  }

  function Turn(i: nat, s0: nat, s1: nat, s2: nat, s3: nat): nat
  {
    if i % 4 == 0 then s0 else if i % 4 == 1 then s1 else if i % 4 == 2 then s2 else s3
  }

  // The table T of RFC 1321, one round at a time.

  function T1(i: nat): nat
    requires i < 16
  {
    if i == 0 then 0xd76aa478 else if i == 1 then 0xe8c7b756 else if i == 2 then 0x242070db else if i == 3 then 0xc1bdceee else
    if i == 4 then 0xf57c0faf else if i == 5 then 0x4787c62a else if i == 6 then 0xa8304613 else if i == 7 then 0xfd469501 else
    if i == 8 then 0x698098d8 else if i == 9 then 0x8b44f7af else if i == 10 then 0xffff5bb1 else if i == 11 then 0x895cd7be else
    if i == 12 then 0x6b901122 else if i == 13 then 0xfd987193 else if i == 14 then 0xa679438e else 0x49b40821
  }

  function T2(i: nat): nat
    requires i < 16
  {
    if i == 0 then 0xf61e2562 else if i == 1 then 0xc040b340 else if i == 2 then 0x265e5a51 else if i == 3 then 0xe9b6c7aa else
    if i == 4 then 0xd62f105d else if i == 5 then 0x02441453 else if i == 6 then 0xd8a1e681 else if i == 7 then 0xe7d3fbc8 else
    if i == 8 then 0x21e1cde6 else if i == 9 then 0xc33707d6 else if i == 10 then 0xf4d50d87 else if i == 11 then 0x455a14ed else
    if i == 12 then 0xa9e3e905 else if i == 13 then 0xfcefa3f8 else if i == 14 then 0x676f02d9 else 0x8d2a4c8a
  }

  function T3(i: nat): nat
    requires i < 16
  {
    if i == 0 then 0xfffa3942 else if i == 1 then 0x8771f681 else if i == 2 then 0x6d9d6122 else if i == 3 then 0xfde5380c else
    if i == 4 then 0xa4beea44 else if i == 5 then 0x4bdecfa9 else if i == 6 then 0xf6bb4b60 else if i == 7 then 0xbebfbc70 else
    if i == 8 then 0x289b7ec6 else if i == 9 then 0xeaa127fa else if i == 10 then 0xd4ef3085 else if i == 11 then 0x04881d05 else
    if i == 12 then 0xd9d4d039 else if i == 13 then 0xe6db99e5 else if i == 14 then 0x1fa27cf8 else 0xc4ac5665
  }

  function T4(i: nat): nat
    requires i < 16
  {
    if i == 0 then 0xf4292244 else if i == 1 then 0x432aff97 else if i == 2 then 0xab9423a7 else if i == 3 then 0xfc93a039 else
    if i == 4 then 0x655b59c3 else if i == 5 then 0x8f0ccc92 else if i == 6 then 0xffeff47d else if i == 7 then 0x85845dd1 else
    if i == 8 then 0x6fa87e4f else if i == 9 then 0xfe2ce6e0 else if i == 10 then 0xa3014314 else if i == 11 then 0x4e0811a1 else
    if i == 12 then 0xf7537e82 else if i == 13 then 0xbd3af235 else if i == 14 then 0x2ad7d2bb else 0xeb86d391
  }

  /** The constant operation `i` adds. */
  function T(alg: Algorithm, i: nat): nat
    requires i < alg.Operations()
    ensures T(alg, i) < TWO32
  {
    match alg
    case Md5 => (if i < 16 then T1(i) else if i < 32 then T2(i - 16) else if i < 48 then T3(i - 32) else T4(i - 48))
    case Md4 => (if i < 16 then 0 else if i < 32 then 0x5a827999 else 0x6ed9eba1)
  }

  /** A number of places, as a word. */
  function Count(s: nat): (w: word)
    requires 0 < s < 32
    ensures 0 < w < 32
  {
    s as word
  }

  function RfcStep(alg: Algorithm, f: word, a: word, b: word, x: word, t: word, s: word): word
    requires 0 < s < 32
  {
    var rotated := CircularShift(a + f + x + t, s);
    if alg.Md5? then b + rotated else rotated
  }

  /** Operation `i`; the registers are then renamed one place. */
  function Op(alg: Algorithm, x: seq<word>, r: Regs, i: nat): Regs
    requires |x| == 16 && i < alg.Operations()
  {
    Regs(r.d, RfcStep(alg, RfcAux(alg, i, r.b, r.c, r.d), r.a, r.b, x[Index(alg, i)], T(alg, i) as word, Count(Shift(alg, i))), r.b, r.c)
  }

  /** Operations `i .. i + n`, in order. */
  function Ops(alg: Algorithm, x: seq<word>, r: Regs, i: nat, n: nat): Regs
    requires |x| == 16 && i + n <= alg.Operations()
    decreases n
  {
    if n == 0 then r else Ops(alg, x, Op(alg, x, r, i), i + 1, n - 1)
  }

  /** Section 3.4 for one block: every operation in order, then the saved registers are added. */
  function RfcCompress(alg: Algorithm, r: Regs, block: seq<byte>): Regs
    requires |block| == 64
  {
    AddRegs(Ops(alg, RfcWords(block), r, 0, alg.Operations()), r)
  }

  // --- contrib/mdx --------------------------------------------------------------------------------

  function F(x: word, y: word, z: word): word { z ^ (x & (y ^ z)) }
  function Md5G(x: word, y: word, z: word): word { y ^ (z & (x ^ y)) }
  function Md4G(x: word, y: word, z: word): word { (x & (y | z)) | (y & z) }
  function H(x: word, y: word, z: word): word { (x ^ y) ^ z }
  function H2(x: word, y: word, z: word): word { x ^ (y ^ z) }
  function I(x: word, y: word, z: word): word { y ^ (x | !z) }

  /** The function STEP `i` names; MD5 spells H in two ways, in turn. */
  function Aux(alg: Algorithm, i: nat, x: word, y: word, z: word): word
  {
    if i < 16 then F(x, y, z)
    else if i < 32 then (if alg.Md5? then Md5G(x, y, z) else Md4G(x, y, z))
    else if i < 48 then (if alg.Md5? && i % 2 == 1 then H2(x, y, z) else H(x, y, z))
    else I(x, y, z)
  }

  /** The message word, the constant and the shift count written out in a STEP. */
  datatype Instruction = Instruction(k: nat, t: nat, s: nat)

  function Md5Round1(j: nat): Instruction
    requires j < 16
  {
    if j == 0 then Instruction(0, 0xd76aa478, 7) else if j == 1 then Instruction(1, 0xe8c7b756, 12) else
    if j == 2 then Instruction(2, 0x242070db, 17) else if j == 3 then Instruction(3, 0xc1bdceee, 22) else
    if j == 4 then Instruction(4, 0xf57c0faf, 7) else if j == 5 then Instruction(5, 0x4787c62a, 12) else
    if j == 6 then Instruction(6, 0xa8304613, 17) else if j == 7 then Instruction(7, 0xfd469501, 22) else
    if j == 8 then Instruction(8, 0x698098d8, 7) else if j == 9 then Instruction(9, 0x8b44f7af, 12) else
    if j == 10 then Instruction(10, 0xffff5bb1, 17) else if j == 11 then Instruction(11, 0x895cd7be, 22) else
    if j == 12 then Instruction(12, 0x6b901122, 7) else if j == 13 then Instruction(13, 0xfd987193, 12) else
    if j == 14 then Instruction(14, 0xa679438e, 17) else Instruction(15, 0x49b40821, 22)
  }

  function Md5Round2(j: nat): Instruction
    requires j < 16
  {
    if j == 0 then Instruction(1, 0xf61e2562, 5) else if j == 1 then Instruction(6, 0xc040b340, 9) else
    if j == 2 then Instruction(11, 0x265e5a51, 14) else if j == 3 then Instruction(0, 0xe9b6c7aa, 20) else
    if j == 4 then Instruction(5, 0xd62f105d, 5) else if j == 5 then Instruction(10, 0x02441453, 9) else
    if j == 6 then Instruction(15, 0xd8a1e681, 14) else if j == 7 then Instruction(4, 0xe7d3fbc8, 20) else
    if j == 8 then Instruction(9, 0x21e1cde6, 5) else if j == 9 then Instruction(14, 0xc33707d6, 9) else
    if j == 10 then Instruction(3, 0xf4d50d87, 14) else if j == 11 then Instruction(8, 0x455a14ed, 20) else
    if j == 12 then Instruction(13, 0xa9e3e905, 5) else if j == 13 then Instruction(2, 0xfcefa3f8, 9) else
    if j == 14 then Instruction(7, 0x676f02d9, 14) else Instruction(12, 0x8d2a4c8a, 20)
  }

  function Md5Round3(j: nat): Instruction
    requires j < 16
  {
    if j == 0 then Instruction(5, 0xfffa3942, 4) else if j == 1 then Instruction(8, 0x8771f681, 11) else
    if j == 2 then Instruction(11, 0x6d9d6122, 16) else if j == 3 then Instruction(14, 0xfde5380c, 23) else
    if j == 4 then Instruction(1, 0xa4beea44, 4) else if j == 5 then Instruction(4, 0x4bdecfa9, 11) else
    if j == 6 then Instruction(7, 0xf6bb4b60, 16) else if j == 7 then Instruction(10, 0xbebfbc70, 23) else
    if j == 8 then Instruction(13, 0x289b7ec6, 4) else if j == 9 then Instruction(0, 0xeaa127fa, 11) else
    if j == 10 then Instruction(3, 0xd4ef3085, 16) else if j == 11 then Instruction(6, 0x04881d05, 23) else
    if j == 12 then Instruction(9, 0xd9d4d039, 4) else if j == 13 then Instruction(12, 0xe6db99e5, 11) else
    if j == 14 then Instruction(15, 0x1fa27cf8, 16) else Instruction(2, 0xc4ac5665, 23)
  }

  function Md5Round4(j: nat): Instruction
    requires j < 16
  {
    if j == 0 then Instruction(0, 0xf4292244, 6) else if j == 1 then Instruction(7, 0x432aff97, 10) else
    if j == 2 then Instruction(14, 0xab9423a7, 15) else if j == 3 then Instruction(5, 0xfc93a039, 21) else
    if j == 4 then Instruction(12, 0x655b59c3, 6) else if j == 5 then Instruction(3, 0x8f0ccc92, 10) else
    if j == 6 then Instruction(10, 0xffeff47d, 15) else if j == 7 then Instruction(1, 0x85845dd1, 21) else
    if j == 8 then Instruction(8, 0x6fa87e4f, 6) else if j == 9 then Instruction(15, 0xfe2ce6e0, 10) else
    if j == 10 then Instruction(6, 0xa3014314, 15) else if j == 11 then Instruction(13, 0x4e0811a1, 21) else
    if j == 12 then Instruction(4, 0xf7537e82, 6) else if j == 13 then Instruction(11, 0xbd3af235, 10) else
    if j == 14 then Instruction(2, 0x2ad7d2bb, 15) else Instruction(9, 0xeb86d391, 21)
  }

  function Md4Round1(j: nat): Instruction
    requires j < 16
  {
    if j == 0 then Instruction(0, 0, 3) else if j == 1 then Instruction(1, 0, 7) else
    if j == 2 then Instruction(2, 0, 11) else if j == 3 then Instruction(3, 0, 19) else
    if j == 4 then Instruction(4, 0, 3) else if j == 5 then Instruction(5, 0, 7) else
    if j == 6 then Instruction(6, 0, 11) else if j == 7 then Instruction(7, 0, 19) else
    if j == 8 then Instruction(8, 0, 3) else if j == 9 then Instruction(9, 0, 7) else
    if j == 10 then Instruction(10, 0, 11) else if j == 11 then Instruction(11, 0, 19) else
    if j == 12 then Instruction(12, 0, 3) else if j == 13 then Instruction(13, 0, 7) else
    if j == 14 then Instruction(14, 0, 11) else Instruction(15, 0, 19)
  }

  function Md4Round2(j: nat): Instruction
    requires j < 16
  {
    if j == 0 then Instruction(0, 0x5a827999, 3) else if j == 1 then Instruction(4, 0x5a827999, 5) else
    if j == 2 then Instruction(8, 0x5a827999, 9) else if j == 3 then Instruction(12, 0x5a827999, 13) else
    if j == 4 then Instruction(1, 0x5a827999, 3) else if j == 5 then Instruction(5, 0x5a827999, 5) else
    if j == 6 then Instruction(9, 0x5a827999, 9) else if j == 7 then Instruction(13, 0x5a827999, 13) else
    if j == 8 then Instruction(2, 0x5a827999, 3) else if j == 9 then Instruction(6, 0x5a827999, 5) else
    if j == 10 then Instruction(10, 0x5a827999, 9) else if j == 11 then Instruction(14, 0x5a827999, 13) else
    if j == 12 then Instruction(3, 0x5a827999, 3) else if j == 13 then Instruction(7, 0x5a827999, 5) else
    if j == 14 then Instruction(11, 0x5a827999, 9) else Instruction(15, 0x5a827999, 13)
  }

  function Md4Round3(j: nat): Instruction
    requires j < 16
  {
    if j == 0 then Instruction(0, 0x6ed9eba1, 3) else if j == 1 then Instruction(8, 0x6ed9eba1, 9) else
    if j == 2 then Instruction(4, 0x6ed9eba1, 11) else if j == 3 then Instruction(12, 0x6ed9eba1, 15) else
    if j == 4 then Instruction(2, 0x6ed9eba1, 3) else if j == 5 then Instruction(10, 0x6ed9eba1, 9) else
    if j == 6 then Instruction(6, 0x6ed9eba1, 11) else if j == 7 then Instruction(14, 0x6ed9eba1, 15) else
    if j == 8 then Instruction(1, 0x6ed9eba1, 3) else if j == 9 then Instruction(9, 0x6ed9eba1, 9) else
    if j == 10 then Instruction(5, 0x6ed9eba1, 11) else if j == 11 then Instruction(13, 0x6ed9eba1, 15) else
    if j == 12 then Instruction(3, 0x6ed9eba1, 3) else if j == 13 then Instruction(11, 0x6ed9eba1, 9) else
    if j == 14 then Instruction(7, 0x6ed9eba1, 11) else Instruction(15, 0x6ed9eba1, 15)
  }

  function Written(alg: Algorithm, i: nat): Instruction
    requires i < alg.Operations()
  {
    var j := i % 16;
    match alg
    case Md5 => (if i < 16 then Md5Round1(j) else if i < 32 then Md5Round2(j) else if i < 48 then Md5Round3(j) else Md5Round4(j))
    case Md4 => (if i < 16 then Md4Round1(j) else if i < 32 then Md4Round2(j) else Md4Round3(j))
  }

  predicate InRange(c: Instruction) { c.k < 16 && c.t < TWO32 && 0 < c.s < 32 }

  function Step(alg: Algorithm, f: word, a: word, b: word, x: word, t: word, s: word): word
    requires 0 < s < 32
  {
    if alg.Md5? then Rotate(a + f + x + t, s) + b else Rotate(a + (f + (x + t)), s)
  }

  /** What STEP `i` makes of the register it is given first. */
  function Stepped(alg: Algorithm, x: seq<word>, i: nat, a: word, b: word, c: word, d: word): word
    requires |x| == 16 && i < alg.Operations() && InRange(Written(alg, i))
  {
    var w := Written(alg, i);
    Step(alg, Aux(alg, i, b, c, d), a, b, x[w.k], w.t as word, Count(w.s))
  }

  /** Four consecutive STEPs update A, D, C and B in turn. */
  function Four(alg: Algorithm, x: seq<word>, r: Regs, i: nat): Regs
    requires |x| == 16 && i + 4 <= alg.Operations() && forall j :: i <= j < i + 4 ==> InRange(Written(alg, j))
  {
    var a := Stepped(alg, x, i, r.a, r.b, r.c, r.d);
    var d := Stepped(alg, x, i + 1, r.d, a, r.b, r.c);
    var c := Stepped(alg, x, i + 2, r.c, d, a, r.b);
    var b := Stepped(alg, x, i + 3, r.b, c, d, a);
    Regs(a, b, c, d)
  }

  /** The first `n` rows of four, in order. */
  function Rows(alg: Algorithm, x: seq<word>, r: Regs, n: nat): Regs
    requires |x| == 16 && 4 * n <= alg.Operations()
  {
    if n == 0 then r
    else
      assert forall j :: 4 * (n - 1) <= j < 4 * n ==> InRange(Written(alg, j)) by { AllInRange(alg); }
      Four(alg, x, Rows(alg, x, r, n - 1), 4 * (n - 1))
  }

  /** What one turn of the `body` loop makes of the registers. */
  function Compress(alg: Algorithm, r: Regs, block: seq<byte>): Regs
    requires |block| == 64
  {
    AddRegs(Rows(alg, Words(block), r, alg.Operations() / 4), r)
  }

  // --- the two agree ------------------------------------------------------------------------------

  lemma FForms(x: word, y: word, z: word)
    ensures z ^ (x & (y ^ z)) == (x & y) | (!x & z)
  {
  }

  lemma FMatches(x: word, y: word, z: word)
    ensures F(x, y, z) == RfcF(x, y, z)
  {
    FForms(x, y, z);
  }

  lemma Md5GForms(x: word, y: word, z: word)
    ensures y ^ (z & (x ^ y)) == (x & z) | (y & !z)
  {
  }

  lemma Md5GMatches(x: word, y: word, z: word)
    ensures Md5G(x, y, z) == RfcMd5G(x, y, z)
  {
    Md5GForms(x, y, z);
  }

  lemma Md4GForms(x: word, y: word, z: word)
    ensures (x & (y | z)) | (y & z) == (x & y) | (x & z) | (y & z)
  {
  }

  lemma Md4GMatches(x: word, y: word, z: word)
    ensures Md4G(x, y, z) == RfcMd4G(x, y, z)
  {
    Md4GForms(x, y, z);
  }

  lemma HMatches(x: word, y: word, z: word)
    ensures H(x, y, z) == RfcH(x, y, z) == H2(x, y, z)
  {
  }

  lemma IMatches(x: word, y: word, z: word)
    ensures I(x, y, z) == RfcI(x, y, z)
  {
  }

  /** The functions rewritten to save operations, and both spellings of H, are those of the RFCs. */
  lemma AuxiliaryFunctions(alg: Algorithm, i: nat, x: word, y: word, z: word)
    ensures Aux(alg, i, x, y, z) == RfcAux(alg, i, x, y, z)
  {
    hide F, Md5G, Md4G, H, H2, I, RfcF, RfcMd5G, RfcMd4G, RfcH, RfcI;
    FMatches(x, y, z);
    Md5GMatches(x, y, z);
    Md4GMatches(x, y, z);
    HMatches(x, y, z);
    IMatches(x, y, z);
  }

  lemma Md5Round1Written(i: nat)
    requires 0 <= i < 16
    ensures Md5Round1(i % 16) == Instruction(Index(Md5, i), T(Md5, i), Shift(Md5, i))
  {
  }

  lemma Md5Round2Written(i: nat)
    requires 16 <= i < 32
    ensures Md5Round2(i % 16) == Instruction(Index(Md5, i), T(Md5, i), Shift(Md5, i))
  {
  }

  lemma Md5Round3Written(i: nat)
    requires 32 <= i < 48
    ensures Md5Round3(i % 16) == Instruction(Index(Md5, i), T(Md5, i), Shift(Md5, i))
  {
  }

  lemma Md5Round4Written(i: nat)
    requires 48 <= i < 64
    ensures Md5Round4(i % 16) == Instruction(Index(Md5, i), T(Md5, i), Shift(Md5, i))
  {
  }

  lemma Md4Round1Written(i: nat)
    requires 0 <= i < 16
    ensures Md4Round1(i % 16) == Instruction(Index(Md4, i), T(Md4, i), Shift(Md4, i))
  {
  }

  lemma Md4Round2Written(i: nat)
    requires 16 <= i < 32
    ensures Md4Round2(i % 16) == Instruction(Index(Md4, i), T(Md4, i), Shift(Md4, i))
  {
  }

  lemma Md4Round3Written(i: nat)
    requires 32 <= i < 48
    ensures Md4Round3(i % 16) == Instruction(Index(Md4, i), T(Md4, i), Shift(Md4, i))
  {
  }

  /** What is written out in each STEP follows the rules of the RFCs. */
  lemma WrittenAsRequired(alg: Algorithm, i: nat)
    requires i < alg.Operations()
    ensures Written(alg, i) == Instruction(Index(alg, i), T(alg, i), Shift(alg, i)) && InRange(Written(alg, i))
  {
    hide Md5Round1, Md5Round2, Md5Round3, Md5Round4, Md4Round1, Md4Round2, Md4Round3, Index, T, Shift;
    match alg
    case Md5 =>
      if i < 16 { Md5Round1Written(i); } else if i < 32 { Md5Round2Written(i); }
      else if i < 48 { Md5Round3Written(i); } else { Md5Round4Written(i); }
    case Md4 =>
      if i < 16 { Md4Round1Written(i); } else if i < 32 { Md4Round2Written(i); } else { Md4Round3Written(i); }
  }

  lemma AllInRange(alg: Algorithm)
    ensures forall j :: 0 <= j < alg.Operations() ==> InRange(Written(alg, j))
  {
    hide Written, InRange;
    forall j | 0 <= j < alg.Operations() ensures InRange(Written(alg, j)) {
      WrittenAsRequired(alg, j);
    }
  }

  lemma StepUnfolds(alg: Algorithm, f: word, a: word, b: word, x: word, t: word, s: word)
    requires 0 < s < 32
    ensures alg.Md5? ==> Step(alg, f, a, b, x, t, s) == Rotate(a + f + x + t, s) + b
    ensures alg.Md4? ==> Step(alg, f, a, b, x, t, s) == Rotate(a + (f + (x + t)), s)
    ensures alg.Md5? ==> RfcStep(alg, f, a, b, x, t, s) == b + CircularShift(a + f + x + t, s)
    ensures alg.Md4? ==> RfcStep(alg, f, a, b, x, t, s) == CircularShift(a + f + x + t, s)
  {
    hide Rotate, CircularShift;
  }

  lemma Md5StepMatches(f: word, a: word, b: word, x: word, t: word, s: word)
    requires 0 < s < 32
    ensures Step(Md5, f, a, b, x, t, s) == RfcStep(Md5, f, a, b, x, t, s)
  {
    hide *;
    calc {
      Step(Md5, f, a, b, x, t, s);
    ==  { StepUnfolds(Md5, f, a, b, x, t, s); }
      Rotate(a + f + x + t, s) + b;
    ==  { RotateIsCircular(a + f + x + t, s); }
      b + CircularShift(a + f + x + t, s);
    ==  { StepUnfolds(Md5, f, a, b, x, t, s); }
      RfcStep(Md5, f, a, b, x, t, s);
    }
  }

  lemma Md4StepMatches(f: word, a: word, b: word, x: word, t: word, s: word)
    requires 0 < s < 32
    ensures Step(Md4, f, a, b, x, t, s) == RfcStep(Md4, f, a, b, x, t, s)
  {
    hide *;
    calc {
      Step(Md4, f, a, b, x, t, s);
    ==  { StepUnfolds(Md4, f, a, b, x, t, s); }
      Rotate(a + (f + (x + t)), s);
    ==  { RotateIsCircular(a + f + x + t, s); }
      CircularShift(a + f + x + t, s);
    ==  { StepUnfolds(Md4, f, a, b, x, t, s); }
      RfcStep(Md4, f, a, b, x, t, s);
    }
  }

  lemma StepMatches(alg: Algorithm, f: word, a: word, b: word, x: word, t: word, s: word)
    requires 0 < s < 32
    ensures Step(alg, f, a, b, x, t, s) == RfcStep(alg, f, a, b, x, t, s)
  {
    hide Step, RfcStep;
    match alg
    case Md5 => Md5StepMatches(f, a, b, x, t, s);
    case Md4 => Md4StepMatches(f, a, b, x, t, s);
  }

  /** One STEP is one operation of the RFC. */
  lemma OpMatches(alg: Algorithm, x: seq<word>, r: Regs, i: nat)
    requires |x| == 16 && i < alg.Operations()
    ensures InRange(Written(alg, i)) && Op(alg, x, r, i) == Regs(r.d, Stepped(alg, x, i, r.a, r.b, r.c, r.d), r.b, r.c)
  {
    hide Step, RfcStep, T, Shift, Index, Written, Aux, RfcAux, Count;
    WrittenAsRequired(alg, i);
    AuxiliaryFunctions(alg, i, r.b, r.c, r.d);
    StepMatches(alg, Aux(alg, i, r.b, r.c, r.d), r.a, r.b, x[Index(alg, i)], T(alg, i) as word, Count(Shift(alg, i)));
  }

  lemma FourOps(alg: Algorithm, x: seq<word>, r: Regs, i: nat)
    requires |x| == 16 && i + 4 <= alg.Operations()
    ensures Ops(alg, x, r, i, 4) == Op(alg, x, Op(alg, x, Op(alg, x, Op(alg, x, r, i), i + 1), i + 2), i + 3)
  {
    hide Op;
    var r1 := Op(alg, x, r, i);
    var r2 := Op(alg, x, r1, i + 1);
    var r3 := Op(alg, x, r2, i + 2);
    assert Ops(alg, x, r3, i + 3, 1) == Op(alg, x, r3, i + 3);
    assert Ops(alg, x, r2, i + 2, 2) == Ops(alg, x, r3, i + 3, 1);
    assert Ops(alg, x, r1, i + 1, 3) == Ops(alg, x, r2, i + 2, 2);
  }

  lemma FourMatches(alg: Algorithm, x: seq<word>, r: Regs, i: nat)
    requires |x| == 16 && i + 4 <= alg.Operations() && forall j :: i <= j < i + 4 ==> InRange(Written(alg, j))
    ensures Four(alg, x, r, i) == Ops(alg, x, r, i, 4)
  {
    hide Op, Ops, Stepped, InRange, Written;
    FourOps(alg, x, r, i);
    OpMatches(alg, x, r, i);
    var r1 := Op(alg, x, r, i);
    OpMatches(alg, x, r1, i + 1);
    var r2 := Op(alg, x, r1, i + 1);
    OpMatches(alg, x, r2, i + 2);
    var r3 := Op(alg, x, r2, i + 2);
    OpMatches(alg, x, r3, i + 3);
  }

  lemma {:induction false} OpsCompose(alg: Algorithm, x: seq<word>, r: Regs, i: nat, m: nat, n: nat)
    requires |x| == 16 && i + m + n <= alg.Operations()
    ensures Ops(alg, x, r, i, m + n) == Ops(alg, x, Ops(alg, x, r, i, m), i + m, n)
    decreases m
  {
    hide Op;
    if m > 0 { OpsCompose(alg, x, Op(alg, x, r, i), i + 1, m - 1, n); }
  }

  lemma {:induction false} RowsMatch(alg: Algorithm, x: seq<word>, r: Regs, n: nat)
    requires |x| == 16 && 4 * n <= alg.Operations()
    ensures Rows(alg, x, r, n) == Ops(alg, x, r, 0, 4 * n)
  {
    hide Op, Four, Written, InRange;
    if n > 0 {
      AllInRange(alg);
      RowsMatch(alg, x, r, n - 1);
      FourMatches(alg, x, Rows(alg, x, r, n - 1), 4 * (n - 1));
      OpsCompose(alg, x, r, 0, 4 * (n - 1), 4);
    }
  }

  /** The unrolled, optimised transforms are the ones RFC 1321 and RFC 1320 define. */
  lemma CompressMatchesRfc(alg: Algorithm, r: Regs, block: seq<byte>)
    requires |block| == 64
    ensures Compress(alg, r, block) == RfcCompress(alg, r, block)
  {
    hide Rows, Ops, Words, RfcWords;
    WordsMatch(block);
    RowsMatch(alg, Words(block), r, alg.Operations() / 4);
  }
}
