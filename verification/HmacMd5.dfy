/** MD5 and MD4 as the library links them, and HMAC_MD5 (src/hmac_md5.c) on top of MD5. */
module HmacMd5 {
  import opened Bytes
  import opened DigestDriver
  import opened DigestWords
  import DigestBlocks

  // --- the two digests --------------------------------------------------------------------------

  function RfcMd5Transform(r: Regs, block: Block): Regs { DigestBlocks.RfcCompress(DigestBlocks.Md5, r, block) }
  function RfcMd4Transform(r: Regs, block: Block): Regs { DigestBlocks.RfcCompress(DigestBlocks.Md4, r, block) }
  function Md5Transform(r: Regs, block: Block): Regs { DigestBlocks.Compress(DigestBlocks.Md5, r, block) }
  function Md4Transform(r: Regs, block: Block): Regs { DigestBlocks.Compress(DigestBlocks.Md4, r, block) }

  /** The digests of RFC 1321 and RFC 1320. */
  function Md5(msg: seq<byte>): (d: seq<byte>) ensures |d| == 16 { RfcDigest(RfcMd5Transform, msg) }
  function Md4(msg: seq<byte>): (d: seq<byte>) ensures |d| == 16 { RfcDigest(RfcMd4Transform, msg) }

  lemma {:induction false} FoldExtensional(f: Transform, g: Transform, r: Regs, data: seq<byte>)
    requires |data| % 64 == 0
    requires forall s: Regs, b: Block :: f(s, b) == g(s, b)
    ensures Fold(f, r, data) == Fold(g, r, data)
    decreases |data|
  {
    if data != [] { FoldExtensional(f, g, r, data[..|data| - 64]); }
  }

  lemma DigestExtensional(f: Transform, g: Transform, msg: seq<byte>)
    requires forall s: Regs, b: Block :: f(s, b) == g(s, b)
    ensures Digest(f, msg) == Digest(g, msg)
  {
    hide Fold, Padding, RegBytes;
    FoldExtensional(f, g, INITIAL, msg + Padding(|msg|));
  }

  /** The driver run with the optimised transforms yields the digests of the RFCs. */
  lemma ImplementedDigests(msg: seq<byte>)
    ensures Digest(Md5Transform, msg) == Md5(msg)
    ensures Digest(Md4Transform, msg) == Md4(msg)
  {
    hide Digest, RfcDigest, DigestBlocks.Compress, DigestBlocks.RfcCompress;
    forall r: Regs, b: Block
      ensures Md5Transform(r, b) == RfcMd5Transform(r, b)
      ensures Md4Transform(r, b) == RfcMd4Transform(r, b)
    {
      DigestBlocks.CompressMatchesRfc(DigestBlocks.Md5, r, b);
      DigestBlocks.CompressMatchesRfc(DigestBlocks.Md4, r, b);
    }
    DigestExtensional(Md5Transform, RfcMd5Transform, msg);
    DigestExtensional(Md4Transform, RfcMd4Transform, msg);
    DigestMatchesRfc(RfcMd5Transform, msg);
    DigestMatchesRfc(RfcMd4Transform, msg);
  }

  method Md5OfPieces(pieces: seq<seq<byte>>) returns (result: seq<byte>)
    requires forall p :: p in pieces ==> |p| < TWO64
    ensures result == Md5(Concat(pieces))
  {
    hide Digest, RfcDigest;
    result := DigestOfPieces(Md5Transform, pieces);
    ImplementedDigests(Concat(pieces));
  }

  method Md4OfPieces(pieces: seq<seq<byte>>) returns (result: seq<byte>)
    requires forall p :: p in pieces ==> |p| < TWO64
    ensures result == Md4(Concat(pieces))
  {
    hide Digest, RfcDigest;
    result := DigestOfPieces(Md4Transform, pieces);
    ImplementedDigests(Concat(pieces));
  }

  method Md5Once(data: seq<byte>) returns (result: seq<byte>)
    requires |data| < TWO64
    ensures result == Md5(data)
  {
    hide Digest, RfcDigest;
    result := Md5OfPieces([data]);
    assert Concat([data]) == data;
  }

  // --- HMAC -------------------------------------------------------------------------------------

  function PadKey(key: seq<byte>): (k: seq<byte>)
    requires |key| <= 64
    ensures |k| == 64
  {
    key + Fill(0, 64 - |key|)
  }

  /** Section 2 of RFC 2104 over MD5, with a 64-octet block. */
  function RfcHmac(key: seq<byte>, msg: seq<byte>): (mac: seq<byte>)
    ensures |mac| == 16
  {
    var k := PadKey(if |key| > 64 then Md5(key) else key);
    Md5(XorSeq(Fill(0x5c, 64), k) + Md5(XorSeq(Fill(0x36, 64), k) + msg))
  }

  /** HMAC_MD5: an oversized key is cut to 64 octets where RFC 2104 would hash it. */
  method Hmac(key: seq<byte>, msg: seq<byte>) returns (mac: seq<byte>)
    requires |msg| + 64 < TWO64
    ensures mac == RfcHmac(if |key| > 64 then key[..64] else key, msg)
    ensures |key| <= 64 ==> mac == RfcHmac(key, msg)
  {
    hide Md5;
    var keyLen := if |key| > 64 then 64 else |key|;
    var keyPad := key[..keyLen] + Fill(0, 64 - keyLen);
    var outer, inner := new byte[64], new byte[64];
    for i := 0 to 64
      invariant forall j :: 0 <= j < i ==> outer[j] == Xor(0x5c, keyPad[j]) && inner[j] == Xor(0x36, keyPad[j])
    {
      outer[i], inner[i] := Xor(0x5c, keyPad[i]), Xor(0x36, keyPad[i]);
    }
    assert key[..keyLen] == if |key| > 64 then key[..64] else key;
    assert outer[..] == XorSeq(Fill(0x5c, 64), keyPad);
    assert inner[..] == XorSeq(Fill(0x36, 64), keyPad);
    var digest := Md5Once(inner[..] + msg);
    mac := Md5Once(outer[..] + digest);
  }
}
