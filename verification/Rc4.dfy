/** The RC4 stream cipher (contrib/rc4/rc4.c) and the NTLM session key it wraps (src/smb_ntlm.c). */
module Rc4 {
  import opened Bytes
  import opened Memory

  type Perm = p: seq<byte> | |p| == 256 witness Fill(0, 256)

  datatype State = State(perm: Perm, index1: byte, index2: byte)

  function Identity(): (p: Perm)
    ensures forall i :: 0 <= i < 256 ==> p[i] == i
  {
    seq(256, i requires 0 <= i < 256 => i as byte)
  }

  ghost predicate IsPermutation(p: Perm)
  {
    multiset(p) == multiset(Identity())
  }

  function Swap(p: Perm, i: byte, j: byte): (r: Perm)
    ensures IsPermutation(p) ==> IsPermutation(r)
    ensures r[i] == p[j] && r[j] == p[i]
    ensures forall k :: 0 <= k < 256 && k != i && k != j ==> r[k] == p[k]
  {
    p[i := p[j]][j := p[i]]
  }

  // --- the cipher as functions ------------------------------------------------------------------

  /** The permutation and `j` after the first `n` turns of the keying loop. */
  function Keyed(key: seq<byte>, n: nat): (r: (Perm, byte))
    requires key != [] && n <= 256
    ensures IsPermutation(r.0)
  {
    if n == 0 then (Identity(), 0)
    else
      var (p, j) := Keyed(key, n - 1);
      var j' := AddBytes(AddBytes(j, p[n - 1]), key[(n - 1) % |key|]);
      (Swap(p, n - 1, j'), j')
  }

  function Initial(key: seq<byte>): State
    requires key != []
  {
    State(Keyed(key, 256).0, 0, 0)
  }

  /** The state and the key octet one turn of the loop in `rc4_crypt` produces. */
  function Step(s: State): (r: (State, byte))
    ensures IsPermutation(s.perm) ==> IsPermutation(r.0.perm)
  {
    var i1 := AddBytes(s.index1, 1);
    var i2 := AddBytes(s.index2, s.perm[i1]);
    var p := Swap(s.perm, i1, i2);
    (State(p, i1, i2), p[AddBytes(p[i1], p[i2])])
  }

  function After(s: State, n: nat): State
  {
    if n == 0 then s else Step(After(s, n - 1)).0
  }

  function KeyStream(s: State, n: nat): (r: seq<byte>)
    ensures |r| == n
  {
    if n == 0 then [] else KeyStream(s, n - 1) + [Step(After(s, n - 1)).1]
  }

  /** What a peer holding `key` turns `data` into. */
  function Cipher(key: seq<byte>, data: seq<byte>): (r: seq<byte>)
    requires key != []
    ensures |r| == |data|
  {
    XorSeq(data, KeyStream(Initial(key), |data|))
  }

  // --- laws -------------------------------------------------------------------------------------

  /** Every state of every run under every key holds a permutation of 0..255. */
  lemma {:induction false} RunKeepsPermutation(key: seq<byte>, n: nat)
    requires key != []
    ensures IsPermutation(After(Initial(key), n).perm)
  {
    hide Step, Keyed;
    if n > 0 { RunKeepsPermutation(key, n - 1); }
  }

  lemma {:induction false} DistinctMultiplicity(s: seq<byte>, v: byte)
    requires forall i, j :: 0 <= i < j < |s| ==> s[i] != s[j]
    ensures multiset(s)[v] <= 1
  {
    if s != [] {
      var front, last := s[..|s| - 1], s[|s| - 1..];
      assert s == front + last && last == [s[|s| - 1]];
      DistinctMultiplicity(front, v);
      assert multiset(s)[v] == multiset(front)[v] + multiset(last)[v];
      if v == last[0] { assert v !in front; }
    }
  }

  /** In such a permutation every octet value stands at one index and at no other. */
  lemma PermutationIsBijective(p: Perm)
    requires IsPermutation(p)
    ensures forall v: byte :: v in p
    ensures forall i, j :: 0 <= i < j < 256 ==> p[i] != p[j]
  {
    forall v: byte ensures v in p {
      assert Identity()[v] == v;
      assert v in multiset(p);
    }
    forall i, j | 0 <= i < j < 256 ensures p[i] != p[j] {
      if p[i] == p[j] {
        var v := p[i];
        assert p == p[..i] + [v] + p[i + 1..j] + [v] + p[j + 1..];
        assert multiset(p)[v] >= 2;
        DistinctMultiplicity(Identity(), v);
        assert false;
      }
    }
  }

  lemma {:induction false} AfterSplits(s: State, m: nat, n: nat)
    ensures After(s, m + n) == After(After(s, m), n)
  {
    hide Step;
    if n > 0 { AfterSplits(s, m, n - 1); }
  }

  /** Running on is running again from where the first run stopped. */
  lemma {:induction false} KeyStreamSplits(s: State, m: nat, n: nat)
    ensures KeyStream(s, m + n) == KeyStream(s, m) + KeyStream(After(s, m), n)
  {
    hide Step;
    if n > 0 {
      KeyStreamSplits(s, m, n - 1);
      AfterSplits(s, m, n - 1);
    }
  }

  lemma CryptSplits(s: State, a: seq<byte>, b: seq<byte>)
    ensures XorSeq(a + b, KeyStream(s, |a| + |b|))
         == XorSeq(a, KeyStream(s, |a|)) + XorSeq(b, KeyStream(After(s, |a|), |b|))
    ensures After(s, |a| + |b|) == After(After(s, |a|), |b|)
  {
    hide Step, After, KeyStream, XorSeq;
    KeyStreamSplits(s, |a|, |b|);
    AfterSplits(s, |a|, |b|);
    XorSeqConcat(a, b, KeyStream(s, |a|), KeyStream(After(s, |a|), |b|));
  }

  /** The same key undoes its own encryption. */
  lemma CipherInvolution(key: seq<byte>, data: seq<byte>)
    requires key != []
    ensures Cipher(key, Cipher(key, data)) == data
  {
    XorSeqCancel(data, KeyStream(Initial(key), |data|));
  }

  // --- the cipher without its loops -----------------------------------------------------------------

  function Total(s: seq<byte>): nat
  {
    if s == [] then 0 else Total(s[..|s| - 1]) + s[|s| - 1]
  }

  function Exchanged(x: byte, i: byte, j: byte): byte
  {
    if x == i then j else if x == j then i else x
  }

  /** What `n` key octets add up to: the whole key as often as it fits, and its beginning. */
  function KeySum(key: seq<byte>, n: nat): nat
    requires key != []
  {
    n / |key| * Total(key) + Total(key[..n % |key|])
  }

  /** The entries that stood at index 0, 1 and so on when their turn came, added up. */
  function EntrySum(key: seq<byte>, n: nat): nat
    requires key != [] && n <= 256
    decreases n, 0
  {
    if n == 0 then 0 else EntrySum(key, n - 1) + Origin(key, n - 1, n - 1)
  }

  /** The other index of exchange `n`. */
  function Partner(key: seq<byte>, n: nat): byte
    requires key != [] && n <= 256
    decreases n, 1
  {
    (EntrySum(key, n) + KeySum(key, n)) % 256
  }

  /** Which index the entry at `x` after `n` exchanges came from; the table began as the identity. */
  function Origin(key: seq<byte>, n: nat, x: byte): byte
    requires key != [] && n <= 256
    decreases n, 2
  {
    if n == 0 then x else Origin(key, n - 1, Exchanged(x, n - 1, Partner(key, n)))
  }

  lemma TotalSnoc(s: seq<byte>, n: nat)
    requires n < |s|
    ensures Total(s[..n + 1]) == Total(s[..n]) + s[n]
  {
    assert s[..n + 1][..n] == s[..n];
  }

  lemma KeySumStep(key: seq<byte>, n: nat)
    requires key != []
    ensures KeySum(key, n + 1) == KeySum(key, n) + key[n % |key|]
  {
    hide Total;
    var len, q, r, total := |key|, n / |key|, n % |key|, Total(key);
    TotalSnoc(key, r);
    NextQuotient(n, len);
    if r + 1 == len {
      assert key[..r + 1] == key && key[..0] == [];
      TotalNone();
      assert (q + 1) * total == q * total + total;
    }
  }

  lemma TotalNone()
    ensures Total([]) == 0
  {
  }

  lemma NextQuotient(n: nat, m: nat)
    requires m > 0
    ensures if n % m + 1 == m then (n + 1) / m == n / m + 1 && (n + 1) % m == 0
            else (n + 1) / m == n / m && (n + 1) % m == n % m + 1
  {
    var q, r := n / m, n % m;
    assert n == m * q + r;
    if r + 1 == m {
      assert n + 1 == m * (q + 1) + 0;
      ModUnique(n + 1, m, q + 1, 0);
    } else {
      assert n + 1 == m * q + (r + 1);
      ModUnique(n + 1, m, q, r + 1);
    }
  }

  /** The table the keying loop leaves is the identity with its exchanges traced back. */
  lemma {:induction false} KeyedByOrigin(key: seq<byte>, n: nat)
    requires key != [] && n <= 256
    ensures Keyed(key, n).1 == Partner(key, n)
    ensures forall x: byte :: Keyed(key, n).0[x] == Origin(key, n, x)
  {
    if n == 0 {
      NoKeySum(key);
    } else {
      hide Keyed, Origin, Partner, Exchanged, Swap;
      KeyedByOrigin(key, n - 1);
      PartnerStep(key, n, Keyed(key, n - 1).0[n - 1]);
      KeyedStep(key, n);
      forall x: byte ensures Keyed(key, n).0[x] == Origin(key, n, x) {
        SwapAt(Keyed(key, n - 1).0, n - 1, Partner(key, n), x);
        OriginStep(key, n, x);
      }
    }
  }

  lemma KeyedStep(key: seq<byte>, n: nat)
    requires key != [] && 0 < n <= 256
    ensures var (p, j) := Keyed(key, n - 1);
            var j' := AddBytes(AddBytes(j, p[n - 1]), key[(n - 1) % |key|]);
            Keyed(key, n) == (Swap(p, n - 1, j'), j')
  {
    hide AddBytes, Swap;
  }

  lemma OriginStep(key: seq<byte>, n: nat, x: byte)
    requires key != [] && 0 < n <= 256
    ensures Origin(key, n, x) == Origin(key, n - 1, Exchanged(x, n - 1, Partner(key, n)))
  {
    hide Exchanged, Partner;
  }

  lemma PartnerStep(key: seq<byte>, n: nat, entry: byte)
    requires key != [] && 0 < n <= 256 && entry == Origin(key, n - 1, n - 1)
    ensures Partner(key, n) == AddBytes(AddBytes(Partner(key, n - 1), entry), key[(n - 1) % |key|])
  {
    hide KeySum, Origin;
    KeySumStep(key, n - 1);
    SumStep(EntrySum(key, n - 1) + KeySum(key, n - 1), entry, key[(n - 1) % |key|]);
  }

  lemma SwapAt(p: Perm, i: byte, j: byte, x: byte)
    ensures Swap(p, i, j)[x] == p[Exchanged(x, i, j)]
  {
  }

  lemma NoKeySum(key: seq<byte>)
    requires key != []
    ensures KeySum(key, 0) == 0
  {
    assert key[..0] == [];
  }

  lemma SumStep(sum: nat, a: byte, b: byte)
    ensures AddBytes(AddBytes(sum % 256, a), b) == (sum + a as nat + b as nat) % 256
  {
  }

  // The same for the octets that follow, from any state.

  function FirstIndex(s: State, n: nat): byte { (s.index1 + n) % 256 }

  function SecondIndex(s: State, n: nat): byte
    decreases n, 1
  {
    (s.index2 + Met(s, n)) % 256
  }

  /** The entries met at the first index, added up. */
  function Met(s: State, n: nat): nat
    decreases n, 0
  {
    if n == 0 then 0 else Met(s, n - 1) + Entry(s, n - 1, FirstIndex(s, n))
  }

  /** The entry at `x` once `n` octets have been drawn. */
  function Entry(s: State, n: nat, x: byte): byte
    decreases n, 2
  {
    if n == 0 then s.perm[x] else Entry(s, n - 1, Exchanged(x, FirstIndex(s, n), SecondIndex(s, n)))
  }

  /** Octet `m` of the key stream stands at the sum of the two entries just exchanged. */
  function StreamOctet(s: State, m: nat): byte
  {
    var a, b := Entry(s, m + 1, FirstIndex(s, m + 1)), Entry(s, m + 1, SecondIndex(s, m + 1));
    Entry(s, m + 1, (a as nat + b as nat) % 256)
  }

  /** One step: the indices move, their entries are exchanged, and the octet stands at the sum of the two. */
  lemma StepParts(t: State)
    ensures var (t', k) := Step(t);
            && t'.index1 == AddBytes(t.index1, 1) && t'.index2 == AddBytes(t.index2, t.perm[t'.index1])
            && (forall x: byte :: t'.perm[x] == t.perm[Exchanged(x, t'.index1, t'.index2)])
            && k == t'.perm[AddBytes(t'.perm[t'.index1], t'.perm[t'.index2])]
  {
    hide AddBytes, Swap;
    var t' := Step(t).0;
    forall x: byte ensures t'.perm[x] == t.perm[Exchanged(x, t'.index1, t'.index2)] {
      SwapAt(t.perm, t'.index1, t'.index2, x);
    }
  }

  lemma {:induction false} AfterByEntries(s: State, n: nat)
    ensures After(s, n).index1 == FirstIndex(s, n) && After(s, n).index2 == SecondIndex(s, n)
    ensures forall x: byte :: After(s, n).perm[x] == Entry(s, n, x)
  {
    hide Step, AddBytes, Exchanged, FirstIndex;
    if n == 0 {
      NoSteps(s);
    } else {
      hide Entry, SecondIndex;
      AfterByEntries(s, n - 1);
      var t := After(s, n - 1);
      StepParts(t);
      FirstStep(s, n);
      SecondStep(s, n, t.perm[FirstIndex(s, n)]);
      forall x: byte ensures After(s, n).perm[x] == Entry(s, n, x) {
        EntryStep(s, n, x);
        assert After(s, n).perm[x] == t.perm[Exchanged(x, FirstIndex(s, n), SecondIndex(s, n))];
      }
    }
  }

  lemma EntryStep(s: State, n: nat, x: byte)
    requires n > 0
    ensures Entry(s, n, x) == Entry(s, n - 1, Exchanged(x, FirstIndex(s, n), SecondIndex(s, n)))
  {
    hide Exchanged, FirstIndex, SecondIndex;
  }

  lemma NoSteps(s: State)
    ensures FirstIndex(s, 0) == s.index1
  {
  }

  lemma FirstStep(s: State, n: nat)
    requires n > 0
    ensures AddBytes(FirstIndex(s, n - 1), 1) == FirstIndex(s, n)
  {
  }

  lemma SecondStep(s: State, n: nat, entry: byte)
    requires n > 0 && entry == Entry(s, n - 1, FirstIndex(s, n))
    ensures AddBytes(SecondIndex(s, n - 1), entry) == SecondIndex(s, n)
  {
    hide Entry, FirstIndex;
    var sum: nat := s.index2 + Met(s, n - 1);
    SumStep(sum, entry, 0);
  }

  lemma {:induction false} StreamByEntries(s: State, n: nat, m: nat)
    requires m < n
    ensures KeyStream(s, n)[m] == StreamOctet(s, m)
  {
    hide Entry, FirstIndex, SecondIndex, Step;
    if m < n - 1 {
      StreamByEntries(s, n - 1, m);
    } else {
      AfterByEntries(s, n);
      StepParts(After(s, n - 1));
    }
  }

  /**
   The cipher, described without its loops: octet `m` of the input is combined with the entry at the
   sum of the two entries exchanged last, in a table that is the identity with 256 exchanges by the
   key and `m + 1` by the running indices traced back.
   */
  lemma CipherByEntries(key: seq<byte>, data: seq<byte>, m: nat)
    requires key != [] && m < |data|
    ensures Initial(key).index1 == Initial(key).index2 == 0
    ensures forall x: byte :: Initial(key).perm[x] == Origin(key, 256, x)
    ensures Cipher(key, data)[m] == Xor(data[m], StreamOctet(Initial(key), m))
  {
    hide KeyStream, Keyed, Origin, StreamOctet;
    KeyedByOrigin(key, 256);
    StreamByEntries(Initial(key), |data|, m);
  }

  // --- contrib/rc4/rc4.c ------------------------------------------------------------------------

  class Context {
    const perm: array<byte>
    var index1: byte
    var index2: byte

    ghost predicate Valid()
      reads this
    {
      perm.Length == 256
    }

    ghost function Contents(): State
      requires Valid()
      reads this, perm
    {
      State(perm[..], index1, index2)
    }

    constructor (key: seq<byte>)
      requires key != []
      ensures Valid() && fresh(perm)
      ensures Contents() == Initial(key)
    {
      hide Keyed;
      perm := new byte[256];
      index1, index2 := 0, 0;
      new;
      LoadIdentity();
      MixKey(key);
    }

    method LoadIdentity()
      requires Valid()
      modifies perm
      ensures perm[..] == Identity()
    {
      for i := 0 to 256
        invariant forall k :: 0 <= k < i ==> perm[k] == k
      {
        perm[i] := i;
      }
    }

    method MixKey(key: seq<byte>)
      requires Valid() && key != [] && perm[..] == Identity()
      modifies perm
      ensures perm[..] == Keyed(key, 256).0
    {
      var j: byte := 0;
      for i := 0 to 256
        invariant (perm[..], j) == Keyed(key, i)
      {
        j := AddBytes(AddBytes(j, perm[i]), key[i % |key|]);
        SwapBytes(i, j);
      }
    }

    method SwapBytes(i: byte, j: byte)
      requires Valid()
      modifies perm
      ensures perm[..] == Swap(old(perm[..]), i, j)
    {
      var temp := perm[i];
      perm[i] := perm[j];
      perm[j] := temp;
    }

    /** The buffers may be one and the same. */
    method Crypt(inbuf: array<byte>, outbuf: array<byte>, n: nat)
      requires Valid() && inbuf != perm && outbuf != perm
      requires n <= inbuf.Length && n <= outbuf.Length
      modifies this, perm, outbuf
      ensures Valid()
      ensures outbuf[..n] == XorSeq(old(inbuf[..n]), KeyStream(old(Contents()), n))
      ensures outbuf[n..] == old(outbuf[n..])
      ensures Contents() == After(old(Contents()), n)
    {
      hide Step;
      for i := 0 to n
        invariant Valid()
        invariant Contents() == After(old(Contents()), i)
        invariant outbuf[..i] == XorSeq(old(inbuf[..i]), KeyStream(old(Contents()), i))
        invariant outbuf[i..] == old(outbuf[i..])
        invariant inbuf[i..] == old(inbuf[i..])
      {
        assert inbuf[i] == inbuf[i..][0] == old(inbuf[i..])[0] == old(inbuf[i]);
        var k := NextKeyByte();
        XorSeqConcat(old(inbuf[..i]), [old(inbuf[i])], KeyStream(old(Contents()), i), [k]);
        outbuf[i] := Xor(inbuf[i], k);
        assert outbuf[i + 1..] == old(outbuf[i..])[1..];
        assert inbuf[i + 1..] == old(inbuf[i..])[1..];
        assert old(inbuf[..i + 1]) == old(inbuf[..i]) + [old(inbuf[i])];
        assert outbuf[..i + 1] == outbuf[..i] + XorSeq([old(inbuf[i])], [k]);
      }
    }

    /** One turn of the loop, up to the octet the input is combined with. */
    method NextKeyByte() returns (k: byte)
      requires Valid()
      modifies this, perm
      ensures Valid() && (Contents(), k) == Step(old(Contents()))
    {
      index1 := AddBytes(index1, 1);
      index2 := AddBytes(index2, perm[index1]);
      SwapBytes(index1, index2);
      var j := AddBytes(perm[index1], perm[index2]);
      k := perm[j];
    }
  }

  /** A message crypted in any number of calls: together they give what one call for the whole would. */
  method CryptPieces(key: seq<byte>, pieces: seq<seq<byte>>) returns (crypted: seq<byte>, ghost end: State)
    requires key != []
    ensures crypted == Cipher(key, Concat(pieces))
    ensures end == After(Initial(key), |Concat(pieces)|)
  {
    hide Initial, KeyStream, After, XorSeq, Concat;
    var c := new Context(key);
    crypted := [];
    ConcatNone(pieces);
    NoneCrypted(Initial(key));
    for i := 0 to |pieces|
      invariant c.Valid() && fresh(c) && fresh(c.perm)
      invariant c.Contents() == After(Initial(key), |Concat(pieces[..i])|)
      invariant crypted == XorSeq(Concat(pieces[..i]), KeyStream(Initial(key), |Concat(pieces[..i])|))
    {
      ghost var before := Concat(pieces[..i]);
      CryptSplits(Initial(key), before, pieces[i]);
      ConcatPrefixStep(pieces, i);
      var buffer := new byte[|pieces[i]|];
      MemCopy(buffer, 0, pieces[i]);
      assert buffer[..|pieces[i]|] == pieces[i];
      c.Crypt(buffer, buffer, |pieces[i]|);
      crypted := crypted + buffer[..|pieces[i]|];
    }
    assert pieces[..|pieces|] == pieces;
    end := c.Contents();
  }

  lemma NoneCrypted(s: State)
    ensures After(s, 0) == s && XorSeq([], KeyStream(s, 0)) == []
  {
  }
}
