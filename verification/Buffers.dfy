/** Octet buffers: copying into one, and comparing a part of one. */
module Buffers {
  import opened Octets

  /** Copies `data` into the buffer from `at` on, and leaves the rest. */
  method CopyInto(buffer: array<u8>, at: nat, data: seq<u8>)
    requires at + |data| <= buffer.Length
    modifies buffer
    ensures buffer[..] == old(buffer[..at]) + data + old(buffer[at + |data|..])
    ensures buffer[..at] == old(buffer[..at]) && buffer[at..at + |data|] == data
    ensures buffer[at + |data|..] == old(buffer[at + |data|..])
    ensures buffer[..at + |data|] == old(buffer[..at]) + data
  {
    for i := 0 to |data|
      invariant forall j :: 0 <= j < buffer.Length ==>
        buffer[j] == if at <= j < at + i then data[j - at] else old(buffer[j])
    {
      buffer[at + i] := data[i];
    }
    assert buffer[..at] == old(buffer[..at]);
    assert buffer[at..at + |data|] == data;
    assert buffer[at + |data|..] == old(buffer[at + |data|..]);
    assert buffer[..at + |data|] == buffer[..at] + buffer[at..at + |data|];
    assert buffer[..] == buffer[..at] + buffer[at..at + |data|] + buffer[at + |data|..];
  }

  /** Compares octet by octet until the first difference. */
  method SameOctets(buffer: array<u8>, at: nat, data: seq<u8>) returns (same: bool)
    requires at + |data| <= buffer.Length
    ensures same <==> buffer[at..at + |data|] == data
  {
    ghost var part := buffer[at..at + |data|];
    for i := 0 to |data|
      invariant forall j :: 0 <= j < i ==> part[j] == data[j]
    {
      assert part[i] == buffer[at + i];
      if buffer[at + i] != data[i] {
        return false;
      }
    }
    return true;
  }
}
