/** Octets, the exclusive-or of two octets, and integers laid out as octets. */
module Bytes {

  type byte = x: int | 0 <= x < 256

  const TWO16: nat := 0x1_0000
  const TWO29: nat := 0x2000_0000
  const TWO31: nat := 0x8000_0000
  const TWO32: nat := 0x1_0000_0000
  const TWO63: nat := 0x8000_0000_0000_0000
  const TWO64: nat := 0x1_0000_0000_0000_0000

  /** `toupper` on the letters of ASCII. */
  function ToUpper(c: byte): byte
  {
    if 'a' as int <= c <= 'z' as int then c - 32 else c
  }

  /** `n` copies of an octet, as `memset` writes them. */
  function Fill(value: byte, n: nat): (r: seq<byte>)
    ensures |r| == n && forall i :: 0 <= i < n ==> r[i] == value
  {
    seq(n, _ => value)
  }

  /** The pieces of a message, joined in order. */
  function Concat(pieces: seq<seq<byte>>): seq<byte>
  {
    if pieces == [] then [] else pieces[0] + Concat(pieces[1..])
  }

  lemma {:induction false} ConcatSnoc(pieces: seq<seq<byte>>, last: seq<byte>)
    ensures Concat(pieces + [last]) == Concat(pieces) + last
  {
    if pieces == [] {
      assert Concat([last]) == last + Concat([]);
    } else {
      ConcatSnoc(pieces[1..], last);
      assert (pieces + [last])[1..] == pieces[1..] + [last];
    }
  }

  lemma ConcatNone(pieces: seq<seq<byte>>)
    ensures Concat(pieces[..0]) == []
  {
  }

  lemma ConcatPrefixStep(pieces: seq<seq<byte>>, n: nat)
    requires n < |pieces|
    ensures Concat(pieces[..n + 1]) == Concat(pieces[..n]) + pieces[n]
  {
    assert pieces[..n + 1] == pieces[..n] + [pieces[n]];
    ConcatSnoc(pieces[..n], pieces[n]);
  }

  lemma SliceOfSlice(s: seq<byte>, at: nat, n: nat, off: nat, k: nat)
    requires at + n <= |s| && off + k <= n
    ensures s[at..at + n][off..off + k] == s[at + off..at + off + k]
  {
    var inner, outer := s[at..at + n][off..off + k], s[at + off..at + off + k];
    assert forall i :: 0 <= i < k ==> inner[i] == outer[i];
  }

  // --- exclusive or -----------------------------------------------------------------------

  function Pow2(n: nat): (r: nat)
    ensures r > 0
  {
    if n == 0 then 1 else 2 * Pow2(n - 1)
  }

  function XorBits(a: nat, b: nat, n: nat): nat
  {
    if n == 0 then 0 else (a % 2 + b % 2) % 2 + 2 * XorBits(a / 2, b / 2, n - 1)
  }

  lemma {:induction false} XorBitsBound(a: nat, b: nat, n: nat)
    ensures XorBits(a, b, n) < Pow2(n)
  {
    if n > 0 { XorBitsBound(a / 2, b / 2, n - 1); }
  }

  lemma SplitBit(bit: nat, rest: nat)
    requires bit < 2
    ensures (bit + 2 * rest) % 2 == bit && (bit + 2 * rest) / 2 == rest
  {
  }

  lemma BitCancel(x: nat, y: nat)
    requires x < 2 && y < 2
    ensures ((x + y) % 2 + y) % 2 == x
  {
  }

  lemma {:induction false} XorBitsCancel(a: nat, b: nat, n: nat)
    requires a < Pow2(n)
    ensures XorBits(XorBits(a, b, n), b, n) == a
  {
    if n > 0 {
      var bit, rest := (a % 2 + b % 2) % 2, XorBits(a / 2, b / 2, n - 1);
      XorBitsCancel(a / 2, b / 2, n - 1);
      SplitBit(bit, rest);
      BitCancel(a % 2, b % 2);
      calc {
        XorBits(XorBits(a, b, n), b, n);
        XorBits(bit + 2 * rest, b, n);
        (bit + b % 2) % 2 + 2 * XorBits(rest, b / 2, n - 1);
        a % 2 + 2 * (a / 2);
        a;
      }
    }
  }

  function Xor(a: byte, b: byte): byte
  {
    XorBitsBound(a, b, 8);
    assert Pow2(8) == 256;
    XorBits(a, b, 8)
  }

  // The same on 8-bit vectors, named so that a proof can take them as they are.

  function Value(x: bv8): (n: nat) ensures n < 256 { x as int }
  function Half(x: bv8): bv8 { x >> 1 }
  function Combined(x: bv8, y: bv8): bv8 { x ^ y }

  lemma HalvedOctet(x: bv8)
    ensures (x as int) % 2 == (x & 1) as int && (x as int) / 2 == (x >> 1) as int
  {
  }

  lemma XorHalves(x: bv8, y: bv8)
    ensures (x ^ y) >> 1 == (x >> 1) ^ (y >> 1) && (x ^ y) & 1 == (x & 1) ^ (y & 1)
  {
  }

  lemma XorOfBits(x: bv8, y: bv8)
    ensures ((x & 1) ^ (y & 1)) as int == ((x & 1) as int + (y & 1) as int) % 2
  {
  }

  lemma OneBit(x: bv8, y: bv8)
    ensures Half(Combined(x, y)) == Combined(Half(x), Half(y)) && Value(Half(x)) == Value(x) / 2
    ensures Value(Combined(x, y)) % 2 == (Value(x) % 2 + Value(y) % 2) % 2
  {
    XorHalves(x, y);
    XorOfBits(x, y);
    HalvedOctet(x);
    HalvedOctet(y);
    HalvedOctet(x ^ y);
  }

  lemma XorBitsStep(a: nat, b: nat, c: nat, n: nat)
    requires n > 0 && c % 2 == (a % 2 + b % 2) % 2 && XorBits(a / 2, b / 2, n - 1) == c / 2
    ensures XorBits(a, b, n) == c
  {
  }

  lemma HalfBound(a: nat, n: nat)
    requires n > 0 && a < Pow2(n)
    ensures a / 2 < Pow2(n - 1)
  {
  }

  lemma {:induction false} XorBitsIsXor(x: bv8, y: bv8, n: nat)
    requires Value(x) < Pow2(n) && Value(y) < Pow2(n)
    ensures XorBits(Value(x), Value(y), n) == Value(Combined(x, y))
    decreases n
  {
    hide Value, Half, Combined, XorBits, Pow2;
    if n == 0 {
      NoBits(x, y);
    } else {
      OneBit(x, y);
      OneBit(y, x);
      OneBit(Combined(x, y), x);
      HalfBound(Value(x), n);
      HalfBound(Value(y), n);
      XorBitsIsXor(Half(x), Half(y), n - 1);
      XorBitsStep(Value(x), Value(y), Value(Combined(x, y)), n);
    }
  }

  lemma NoBits(x: bv8, y: bv8)
    requires Value(x) < Pow2(0) && Value(y) < Pow2(0)
    ensures XorBits(Value(x), Value(y), 0) == Value(Combined(x, y))
  {
    assert x == 0 && y == 0;
  }

  /** It is the operator of the source on 8-bit values. */
  lemma XorIsXor(x: bv8, y: bv8)
    ensures Xor(x as int, y as int) == (x ^ y) as int
  {
    assert Pow2(8) == 256;
    XorBitsIsXor(x, y, 8);
  }

  lemma XorCancel(a: byte, b: byte)
    ensures Xor(Xor(a, b), b) == a
  {
    assert Pow2(8) == 256;
    XorBitsCancel(a, b, 8);
  }

  /** Two octet strings of one length, combined octet by octet. */
  function XorSeq(a: seq<byte>, b: seq<byte>): (r: seq<byte>)
    requires |a| == |b|
    ensures |r| == |a|
  {
    seq(|a|, i requires 0 <= i < |a| => Xor(a[i], b[i]))
  }

  lemma XorSeqCancel(a: seq<byte>, b: seq<byte>)
    requires |a| == |b|
    ensures XorSeq(XorSeq(a, b), b) == a
  {
    forall i | 0 <= i < |a|
      ensures XorSeq(XorSeq(a, b), b)[i] == a[i]
    {
      XorCancel(a[i], b[i]);
    }
  }

  lemma XorSeqConcat(a: seq<byte>, b: seq<byte>, k: seq<byte>, l: seq<byte>)
    requires |a| == |k| && |b| == |l|
    ensures XorSeq(a + b, k + l) == XorSeq(a, k) + XorSeq(b, l)
  {
  }

  /** Addition of unsigned octets. */
  function AddBytes(a: int, b: int): byte
  {
    (a + b) % 256
  }

  // --- integers as octets -------------------------------------------------------------------

  /** The low `k` octets of `n`, least significant first: how every packed field is stored. */
  function LittleEndian(n: nat, k: nat): (r: seq<byte>)
    ensures |r| == k
  {
    if k == 0 then [] else [n % 256] + LittleEndian(n / 256, k - 1)
  }

  function FromLittleEndian(s: seq<byte>): nat
  {
    if s == [] then 0 else s[0] + 256 * FromLittleEndian(s[1..])
  }

  function Pow256(k: nat): (r: nat)
    ensures r > 0
  {
    if k == 0 then 1 else 256 * Pow256(k - 1)
  }

  /** Storing an integer in `k` octets and reading it back keeps exactly its low `8k` bits. */
  lemma {:induction false} LittleEndianRoundTrip(n: nat, k: nat)
    ensures FromLittleEndian(LittleEndian(n, k)) == n % Pow256(k)
  {
    if k > 0 {
      LittleEndianRoundTrip(n / 256, k - 1);
      assert LittleEndian(n, k)[1..] == LittleEndian(n / 256, k - 1);
      DivModStep(n, Pow256(k - 1));
    }
  }

  lemma DivModStep(n: nat, m: nat)
    requires m > 0
    ensures n % (256 * m) == n % 256 + 256 * ((n / 256) % m)
  {
    var q, r := n / 256, n % 256;
    var qq, qr := q / m, q % m;
    assert n == 256 * (m * qq + qr) + r;
    assert n == (256 * m) * qq + (256 * qr + r);
    assert 0 <= 256 * qr + r < 256 * m;
    ModUnique(n, 256 * m, qq, 256 * qr + r);
  }

  lemma ModUnique(n: nat, m: nat, q: nat, r: nat)
    requires m > 0 && r < m && n == m * q + r
    ensures n % m == r && n / m == q
  {
    var d := n / m - q;
    assert m * d == r - n % m;
  }

  lemma {:induction false} FromLittleEndianBound(s: seq<byte>)
    ensures FromLittleEndian(s) < Pow256(|s|)
  {
    if s != [] { FromLittleEndianBound(s[1..]); }
  }

  /** Reading `k` octets and storing them again is the identity. */
  lemma {:induction false} LittleEndianOfFrom(s: seq<byte>)
    ensures LittleEndian(FromLittleEndian(s), |s|) == s
  {
    if s != [] {
      LittleEndianOfFrom(s[1..]);
    }
  }

  function Le16(n: nat): (r: seq<byte>) ensures |r| == 2 { LittleEndian(n, 2) }
  function Le32(n: nat): (r: seq<byte>) ensures |r| == 4 { LittleEndian(n, 4) }
  function Le64(n: nat): (r: seq<byte>) ensures |r| == 8 { LittleEndian(n, 8) }

  /** The integer stored in octets `at .. at + k` of a packed structure. */
  function Field(s: seq<byte>, at: nat, k: nat): nat
    requires at + k <= |s|
  {
    FromLittleEndian(s[at..at + k])
  }

  lemma FieldBound(s: seq<byte>, at: nat, k: nat)
    requires at + k <= |s|
    ensures Field(s, at, k) < Pow256(k)
  {
    FromLittleEndianBound(s[at..at + k]);
  }
}
