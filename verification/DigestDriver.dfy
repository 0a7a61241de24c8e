/**
 The streaming driver of contrib/mdx: MD5_Init, MD5_Update, MD5_Final and their MD4 twins.

 The two files differ only in the block transform, so the driver is modelled once, for an
 `Algorithm`. What it must compute is `Digest`: the one-shot definition of sections 3.1 to 3.5
 of RFC 1321 (and of RFC 1320), over the block transform those documents define.
 */
module DigestDriver {
  import opened Bytes
  import opened DigestWords
  import opened Memory

  type Block = b: seq<byte> | |b| == 64 witness Fill(0, 64)

  /** A block transform: what one 64-octet block makes of the registers. */
  type Transform = (Regs, Block) -> Regs

  const INITIAL: Regs := Regs(0x67452301, 0xefcdab89, 0x98badcfe, 0x10325476)

  // --- the one-shot definition ------------------------------------------------------------------

  /** The registers after every 64-octet block of `data` has been processed, first block first. */
  function Fold(f: Transform, r: Regs, data: seq<byte>): Regs
    requires |data| % 64 == 0
    decreases |data|
  {
    if data == [] then r
    else f(Fold(f, r, data[..|data| - 64]), data[|data| - 64..])
  }

  /** Sections 3.1 and 3.2: a one bit, zeros up to 448 modulo 512, the bit length modulo 2^64. */
  function Padding(n: nat): (p: seq<byte>)
    ensures (n + |p|) % 64 == 0
  {
    [0x80] + Fill(0, if n % 64 < 56 then 55 - n % 64 else 119 - n % 64) + Le64(8 * n % TWO64)
  }

  function Digest(f: Transform, msg: seq<byte>): (d: seq<byte>)
    ensures |d| == 16
  {
    RegBytes(Fold(f, INITIAL, msg + Padding(|msg|)))
  }

  /** Section 3.3: the octets of the four registers at the start, low-order octet first. */
  function InitialOctets(): (s: seq<byte>)
    ensures |s| == 16
  {
    [0x01, 0x23, 0x45, 0x67] + [0x89, 0xab, 0xcd, 0xef] + [0xfe, 0xdc, 0xba, 0x98] + [0x76, 0x54, 0x32, 0x10]
  }

  /** Sections 3.3 to 3.5: the registers of the RFC, the blocks in order, the result octet by octet. */
  function RfcDigest(f: Transform, msg: seq<byte>): (d: seq<byte>)
    ensures |d| == 16
  {
    hide RegsOf, RfcOctets, InitialOctets;
    RfcOctets(Fold(f, RegsOf(InitialOctets()), msg + Padding(|msg|)))
  }

  /** The constants of `MD5_Init` and `MD4_Init` are the registers of section 3.3. */
  lemma InitialRegisters()
    ensures RegsOf(InitialOctets()) == INITIAL
    ensures RegBytes(INITIAL) == InitialOctets()
  {
    hide RfcWord, WordAt, WordBytes;
    var s := InitialOctets();
    InitialWord(s, 0, 0x01, 0x23, 0x45, 0x67, 0x67452301);
    InitialWord(s, 4, 0x89, 0xab, 0xcd, 0xef, 0xefcdab89);
    InitialWord(s, 8, 0xfe, 0xdc, 0xba, 0x98, 0x98badcfe);
    InitialWord(s, 12, 0x76, 0x54, 0x32, 0x10, 0x10325476);
  }

  /** Four octets and the word made of them. */
  lemma InitialWord(s: seq<byte>, at: nat, a: bv8, b: bv8, c: bv8, d: bv8, w: word)
    requires at + 4 <= |s| && w == Joined(a, b, c, d)
    requires s[at] == a as int && s[at + 1] == b as int && s[at + 2] == c as int && s[at + 3] == d as int
    ensures RfcWord(s, at) == w && WordBytes(w) == s[at..at + 4]
  {
    hide Joined, WordBytes, FromLittleEndian, Weighted;
    JoinedValue(a, b, c, d);
    FourFromLittleEndian(s[at..at + 4]);
    ThereAndBack(w);
    WordBytesAreLittleEndian(w);
    LittleEndianOfFrom(s[at..at + 4]);
  }

  /** Initial values, word order and byte order of the result are those of the RFCs. */
  lemma DigestMatchesRfc(f: Transform, msg: seq<byte>)
    ensures Digest(f, msg) == RfcDigest(f, msg)
  {
    hide Fold, RegsOf, Padding, RegBytes, RfcOctets;
    InitialRegisters();
    RegBytesAreLittleEndian(Fold(f, INITIAL, msg + Padding(|msg|)));
  }

  // --- facts about the fold ---------------------------------------------------------------------

  lemma {:induction false} FoldConcat(f: Transform, r: Regs, a: seq<byte>, b: seq<byte>)
    requires |a| % 64 == 0 && |b| % 64 == 0
    ensures |a + b| % 64 == 0
    ensures Fold(f, r, a + b) == Fold(f, Fold(f, r, a), b)
    decreases |b|
  {
    hide Fold;
    if b == [] {
      assert a + b == a;
      FoldNothing(f, Fold(f, r, a));
    } else {
      var front, last := b[..|b| - 64], b[|b| - 64..];
      FoldConcat(f, r, a, front);
      FoldSnoc(f, r, a + front, last);
      FoldSnoc(f, Fold(f, r, a), front, last);
      assert a + b == (a + front) + last && b == front + last;
    }
  }

  lemma FoldSnoc(f: Transform, r: Regs, data: seq<byte>, block: Block)
    requires |data| % 64 == 0
    ensures |data + block| % 64 == 0 && Fold(f, r, data + block) == f(Fold(f, r, data), block)
  {
    var n := |data|;
    assert (data + block)[..n] == data && (data + block)[n..] == block;
  }

  lemma FoldNothing(f: Transform, r: Regs)
    ensures Fold(f, r, []) == r
  {
  }

  lemma FoldBlock(f: Transform, r: Regs, block: seq<byte>)
    requires |block| == 64
    ensures Fold(f, r, block) == f(r, block)
  {
    assert block[..0] == [] && block[0..] == block;
  }

  /** The octets of `msg` that fill whole blocks, and those left over. */
  function Whole(msg: seq<byte>): (r: seq<byte>)
    ensures |r| % 64 == 0
  {
    msg[..|msg| - |msg| % 64]
  }

  function Tail(msg: seq<byte>): (r: seq<byte>)
    ensures |r| == |msg| % 64 && Whole(msg) + r == msg
  {
    msg[|msg| - |msg| % 64..]
  }

  lemma TailOf(whole: seq<byte>, tail: seq<byte>)
    requires |whole| % 64 == 0 && |tail| < 64
    ensures Whole(whole + tail) == whole && Tail(whole + tail) == tail
  {
    assert |whole + tail| % 64 == |tail|;
  }

  lemma WholeOfAll(msg: seq<byte>)
    requires |msg| % 64 == 0
    ensures Whole(msg) == msg
  {
  }

  lemma TailGrows(msg: seq<byte>, data: seq<byte>)
    requires |msg| % 64 + |data| < 64
    ensures Whole(msg + data) == Whole(msg) && Tail(msg + data) == Tail(msg) + data
    ensures |msg + data| % 64 == |msg| % 64 + |data|
  {
    assert msg + data == Whole(msg) + (Tail(msg) + data);
    TailOf(Whole(msg), Tail(msg) + data);
  }

  /** Enough octets to fill the carry buffer complete one block more. */
  lemma TailCompletes(f: Transform, r: Regs, msg: seq<byte>, data: seq<byte>)
    requires |msg| % 64 + |data| == 64
    ensures |msg + data| % 64 == 0
    ensures Fold(f, r, msg + data) == Fold(f, Fold(f, r, Whole(msg)), Tail(msg) + data)
  {
    assert msg + data == Whole(msg) + (Tail(msg) + data);
    FoldConcat(f, r, Whole(msg), Tail(msg) + data);
  }

  /** Whole blocks already folded and more octets behind them split at the same places. */
  lemma WholeConcat(f: Transform, r: Regs, done: seq<byte>, more: seq<byte>)
    requires |done| % 64 == 0
    ensures Whole(done + more) == done + Whole(more)
    ensures Tail(done + more) == Tail(more)
    ensures Fold(f, r, Whole(done + more)) == Fold(f, Fold(f, r, done), Whole(more))
  {
    TailOf(done + Whole(more), Tail(more));
    assert done + more == (done + Whole(more)) + Tail(more);
    FoldConcat(f, r, done, Whole(more));
  }

  // --- the counters -----------------------------------------------------------------------------

  /** The 29-bit and 32-bit counters after `size` more octets, as MD5_Update computes them. */
  function NextLo(lo: nat, size: nat): nat
  {
    (lo + size) % TWO64 % TWO29
  }

  function NextHi(lo: nat, hi: nat, size: nat): nat
  {
    var carried := if NextLo(lo, size) < lo then (hi + 1) % TWO32 else hi;
    (carried + size / TWO29) % TWO32
  }

  /** `hi * 2^29 + lo` is the number of octets so far modulo 2^61, across any wrap-around. */
  lemma CountersAdvance(n: nat, size: nat)
    ensures NextLo(n % TWO29, size) == (n + size) % TWO29
    ensures NextHi(n % TWO29, n / TWO29 % TWO32, size) == (n + size) / TWO29 % TWO32
  {
    var lo, q, slo, s := n % TWO29, n / TWO29, size % TWO29, size / TWO29;
    var c := if lo + slo >= TWO29 then 1 else 0;
    var lo' := lo + slo - c * TWO29;
    ModUnique(n + size, TWO29, q + s + c, lo');
    ModUnique(lo + size, TWO29, s + c, lo');
    LowBits(lo + size);
    assert lo' < lo <==> c == 1;
    SumModulo(q, c, s);
  }

  lemma LowBits(n: nat)
    ensures n % TWO64 % TWO29 == n % TWO29
  {
    var q, r := n / TWO64, n % TWO64;
    ModUnique(n, TWO29, q * (TWO64 / TWO29) + r / TWO29, r % TWO29);
  }

  lemma SumModulo(q: nat, c: nat, s: nat)
    requires c <= 1
    ensures ((if c == 1 then (q % TWO32 + 1) % TWO32 else q % TWO32) + s) % TWO32 == (q + s + c) % TWO32
  {
  }

  /** The octets in the carry buffer can be counted from the low counter alone. */
  lemma CarryCount(n: nat)
    ensures n % TWO29 % 64 == n % 64
  {
  }

  lemma {:induction false} LittleEndianSplit(x: nat, y: nat, k: nat, j: nat)
    requires x < Pow256(k)
    ensures LittleEndian(x + Pow256(k) * y, k + j) == LittleEndian(x, k) + LittleEndian(y, j)
  {
    if k > 0 {
      var n, high := x + Pow256(k) * y, Pow256(k - 1) * y;
      Regroup(Pow256(k - 1), y);
      LowOctet(x, high);
      LittleEndianSplit(x / 256, y, k - 1, j);
      assert LittleEndian(n, k + j) == [n % 256] + LittleEndian(n / 256, k - 1 + j);
    }
  }

  lemma Regroup(p: nat, y: nat)
    ensures (256 * p) * y == 256 * (p * y)
  {
  }

  lemma LowOctet(x: nat, high: nat)
    ensures (x + 256 * high) % 256 == x % 256 && (x + 256 * high) / 256 == x / 256 + high
  {
  }

  /** The two words MD5_Final stores are the 64-bit bit count of section 3.2. */
  lemma BitCount(n: nat)
    ensures Le32(8 * (n % TWO29) % TWO32) + Le32(n / TWO29 % TWO32) == Le64(8 * n % TWO64)
  {
    var lo, hi := n % TWO29, n / TWO29 % TWO32;
    hide LittleEndian;
    CountSplits(n);
    assert Pow256(4) == TWO32;
    assert 8 * lo % TWO32 == 8 * lo;
    LittleEndianSplit(8 * lo, hi, 4, 4);
  }

  lemma CountSplits(n: nat)
    ensures 8 * n % TWO64 == 8 * (n % TWO29) + TWO32 * (n / TWO29 % TWO32)
    ensures 8 * (n % TWO29) < TWO32
  {
    var lo, q := n % TWO29, n / TWO29;
    var hi, k := q % TWO32, q / TWO32;
    assert n == lo + TWO29 * q && q == hi + TWO32 * k;
    ModUnique(8 * n, TWO64, k, 8 * lo + TWO32 * hi);
  }

  /** One block or two, the blocks MD5_Final builds are the carried octets and the padding. */
  lemma PaddingLaidOut(tail: seq<byte>, n: nat, first: seq<byte>, head: seq<byte>)
    requires |tail| == n % 64
    requires if |tail| < 56 then first == [] && head == tail + [0x80]
             else first == tail + [0x80] + Fill(0, 63 - |tail|) && head == []
    ensures first + (head + Fill(0, 56 - |head|) + Le64(8 * n % TWO64)) == tail + Padding(n)
    ensures Le32(8 * (n % TWO29) % TWO32) + Le32(n / TWO29 % TWO32) == Le64(8 * n % TWO64)
  {
    hide Le64, Le32;
    BitCount(n);
    if |tail| >= 56 {
      assert Fill(0, 63 - |tail|) + Fill(0, 56) == Fill(0, 119 - |tail|);
    }
  }

  lemma PaddingFolds(f: Transform, r: Regs, msg: seq<byte>, first: seq<byte>, last: seq<byte>)
    requires |first| % 64 == 0 && |last| % 64 == 0
    requires r == Fold(f, INITIAL, Whole(msg))
    requires first + last == Tail(msg) + Padding(|msg|)
    ensures Digest(f, msg) == RegBytes(Fold(f, Fold(f, r, first), last))
  {
    hide Fold, Whole, Tail, Padding, RegBytes;
    FoldConcat(f, r, first, last);
    FoldConcat(f, INITIAL, Whole(msg), first + last);
    assert Whole(msg) + (Tail(msg) + Padding(|msg|)) == msg + Padding(|msg|);
  }

  // --- the driver -------------------------------------------------------------------------------

  class Context {
    const f: Transform
    var lo: nat
    var hi: nat
    var regs: Regs
    const buffer: array<byte>
    ghost var fed: seq<byte>  // every octet given to Update so far

    ghost predicate Valid()
      reads this, buffer
    {
      && buffer.Length == 64
      && lo == |fed| % TWO29
      && hi == |fed| / TWO29 % TWO32
      && buffer[..|fed| % 64] == Tail(fed)
      && regs == Fold(f, INITIAL, Whole(fed))
    }

    constructor (f: Transform)
      ensures Valid() && fed == [] && this.f == f && fresh(buffer)
    {
      this.f := f;
      regs := INITIAL;
      lo, hi := 0, 0;
      buffer := new byte[64];
      fed := [];
    }

    /** `body`: one or more whole blocks; the counters are the caller's business. */
    method Body(data: seq<byte>)
      requires |data| % 64 == 0 && data != []
      modifies this`regs
      ensures regs == Fold(f, old(regs), data)
    {
      var ptr, size := 0, |data|;
      while true
        invariant 0 <= ptr < |data| && size == |data| - ptr && ptr % 64 == 0
        invariant regs == Fold(f, old(regs), data[..ptr])
        decreases size
      {
        ghost var before := regs;
        regs := f(regs, data[ptr..ptr + 64]);
        FoldBlock(f, before, data[ptr..ptr + 64]);
        FoldConcat(f, old(regs), data[..ptr], data[ptr..ptr + 64]);
        assert data[..ptr] + data[ptr..ptr + 64] == data[..ptr + 64];
        ptr := ptr + 64;
        size := size - 64;
        if size == 0 {
          assert data[..ptr] == data;
          break;
        }
      }
    }

    method Update(data: seq<byte>)
      requires Valid() && |data| < TWO64
      modifies this, buffer
      ensures Valid() && fed == old(fed) + data
    {
      hide Fold, Whole, Tail, NextLo, NextHi;
      var savedLo := lo;
      CarryCount(|fed|);
      CountersAdvance(|fed|, |data|);
      lo, hi := NextLo(savedLo, |data|), NextHi(savedLo, hi, |data|);
      var used := savedLo % 64;
      ghost var done := fed;
      var rest := data;
      if used != 0 {
        var available := 64 - used;
        if |data| < available {
          TailGrows(fed, data);
          MemCopy(buffer, used, data);
          assert buffer[..used + |data|] == buffer[..][..used] + buffer[..][used..used + |data|];
          fed := fed + data;
          return;
        }
        CompleteBlock(used, data[..available]);
        rest := data[available..];
        done := fed + data[..available];
      } else {
        WholeOfAll(fed);
      }
      assert fed + data == done + rest;
      WholeConcat(f, INITIAL, done, rest);
      BodyAndCarry(rest);
      fed := fed + data;
    }

    /** The carry buffer is filled up and goes through `body`. */
    method CompleteBlock(used: nat, data: seq<byte>)
      requires buffer.Length == 64 && used == |fed| % 64 && used + |data| == 64
      requires buffer[..used] == Tail(fed) && regs == Fold(f, INITIAL, Whole(fed))
      modifies this`regs, buffer
      ensures |fed + data| % 64 == 0 && regs == Fold(f, INITIAL, fed + data)
    {
      hide Fold, Whole, Tail;
      MemCopy(buffer, used, data);
      assert buffer[..] == buffer[..used + |data|];
      TailCompletes(f, INITIAL, fed, data);
      Body(buffer[..]);
    }

    /** The end of Update: the whole blocks of `rest` go through `body`, the remainder is kept. */
    method BodyAndCarry(rest: seq<byte>)
      requires buffer.Length == 64
      modifies this`regs, buffer
      ensures regs == Fold(f, old(regs), Whole(rest))
      ensures buffer[..|rest| % 64] == Tail(rest)
    {
      hide Fold;
      var whole := |rest| - |rest| % 64;
      if |rest| >= 64 {
        Body(rest[..whole]);
      } else {
        FoldNothing(f, regs);
        assert Whole(rest) == [];
      }
      MemCopy(buffer, 0, rest[whole..]);
      assert buffer[..|rest| % 64] == buffer[..][0..|rest[whole..]|];
    }

    method Final() returns (result: seq<byte>)
      requires Valid()
      modifies this, buffer
      ensures result == Digest(f, old(fed))
      ensures lo == hi == 0 && regs == Regs(0, 0, 0, 0) && buffer[..] == Fill(0, 64)
    {
      hide Fold, Whole, Tail, Padding, RegBytes, Digest;
      ghost var r0, n := regs, |fed|;
      var used, first := MarkEnd();
      ghost var head := buffer[..used];
      ghost var last := head + Fill(0, 56 - used) + Le64(8 * n % TWO64);
      PaddingLaidOut(Tail(fed), n, first, head);
      StoreCount(used);
      assert buffer[..] == last;
      Body(buffer[..]);
      PaddingFolds(f, r0, fed, first, last);
      result := RegBytes(regs);
      lo, hi, regs := 0, 0, Regs(0, 0, 0, 0);
      MemSet(buffer, 0, 0, 64);
      assert buffer[..] == buffer[..][0..64];
    }

    /** The one bit; when the count no longer fits behind it, a block of its own is spent on it. */
    method MarkEnd() returns (used: nat, ghost first: seq<byte>)
      requires Valid()
      modifies this`regs, buffer
      ensures used <= 56
      ensures if |fed| % 64 < 56 then first == [] && buffer[..used] == Tail(fed) + [0x80]
              else first == Tail(fed) + [0x80] + Fill(0, 63 - |fed| % 64) && used == 0
      ensures regs == Fold(f, old(regs), first)
    {
      hide Fold, Whole, Tail;
      CarryCount(|fed|);
      used := lo % 64;
      buffer[used] := 0x80;
      assert buffer[..used + 1] == Tail(fed) + [0x80];
      used := used + 1;
      var available := 64 - used;
      first := [];
      FoldNothing(f, regs);
      if available < 8 {
        MemSet(buffer, used, 0, available);
        assert buffer[..] == buffer[..][..used] + buffer[..][used..64];
        first := buffer[..];
        Body(buffer[..]);
        used := 0;
      }
    }

    /** Zeros up to octet 56 of the last block, then the low and the high word of the bit count. */
    method StoreCount(used: nat)
      requires used <= 56 && buffer.Length == 64
      modifies this`lo, buffer
      ensures buffer[..] == old(buffer[..used]) + Fill(0, 56 - used) + (Le32(8 * old(lo) % TWO32) + Le32(hi))
    {
      MemSet(buffer, used, 0, 56 - used);
      lo := lo * 8 % TWO32;
      MemCopy(buffer, 56, LittleEndian(lo, 4));
      MemCopy(buffer, 60, LittleEndian(hi, 4));
    }
  }

  /**
   Init, then Update once for every piece of a message, then Final: however the message was cut,
   empty pieces and pieces crossing block boundaries included, the result is the digest of the whole.
   */
  method DigestOfPieces(f: Transform, pieces: seq<seq<byte>>) returns (result: seq<byte>)
    requires forall p :: p in pieces ==> |p| < TWO64
    ensures result == Digest(f, Concat(pieces))
  {
    var ctx := new Context(f);
    for i := 0 to |pieces|
      invariant ctx.Valid() && fresh(ctx) && fresh(ctx.buffer) && ctx.f == f
      invariant ctx.fed == Concat(pieces[..i])
    {
      ctx.Update(pieces[i]);
      ConcatPrefixStep(pieces, i);
    }
    assert pieces[..|pieces|] == pieces;
    result := ctx.Final();
  }
}
