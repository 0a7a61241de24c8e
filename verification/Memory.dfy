/** `memcpy` and `memset` on a fixed-size buffer. */
module Memory {
  import opened Bytes

  /** The buffer after `data` has been copied to offset `at`. */
  function Overwrite(buffer: seq<byte>, at: nat, data: seq<byte>): (r: seq<byte>)
    requires at + |data| <= |buffer|
    ensures |r| == |buffer|
    ensures r[..at] == buffer[..at]
    ensures r[at..at + |data|] == data
    ensures r[at + |data|..] == buffer[at + |data|..]
  {
    buffer[..at] + data + buffer[at + |data|..]
  }

  method MemCopy(buffer: array<byte>, at: nat, data: seq<byte>)
    requires at + |data| <= buffer.Length
    modifies buffer
    ensures buffer[..] == Overwrite(old(buffer[..]), at, data)
    ensures buffer[..at + |data|] == old(buffer[..at]) + data
  {
    for i := 0 to |data|
      invariant buffer[..at] == old(buffer[..at])
      invariant buffer[at..at + i] == data[..i]
      invariant buffer[at + i..] == old(buffer[at + i..])
    {
      buffer[at + i] := data[i];
      assert buffer[at + i + 1..] == old(buffer[at + i..])[1..];
    }
    assert buffer[..] == buffer[..at] + buffer[at..at + |data|] + buffer[at + |data|..];
  }

  method MemSet(buffer: array<byte>, at: nat, value: byte, n: nat)
    requires at + n <= buffer.Length
    modifies buffer
    ensures buffer[..] == Overwrite(old(buffer[..]), at, Fill(value, n))
  {
    MemCopy(buffer, at, Fill(value, n));
  }
}
