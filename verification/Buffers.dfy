/** A fixed-size output buffer with a write cursor: the `out`, `o` pair that the
    builders and the name decoder of dns_msg.c carry. */
module Buffers {
  import opened Names

  class Buffer {
    const data: array<byte>
    var len: nat

    ghost predicate Valid()
      reads this
    {
      len <= data.Length
    }

    /** What has been written so far. */
    ghost function Contents(): seq<byte>
      requires Valid()
      reads this, data
    {
      data[..len]
    }

    constructor (capacity: nat)
      ensures Valid() && fresh(data) && data.Length == capacity && Contents() == []
    {
      data := new byte[capacity];
      len := 0;
    }

    /** out[o++] = c, for each byte in turn. */
    method Put(bs: seq<byte>)
      requires Valid() && len + |bs| <= data.Length
      modifies this`len, data
      ensures Valid() && len == old(len) + |bs|
      ensures Contents() == old(Contents()) + bs
    {
      ghost var before := Contents();
      for i := 0 to |bs|
        invariant Valid() && len == old(len) + i
        invariant Contents() == before + bs[..i]
      {
        data[len] := bs[i];
        len := len + 1;
      }
      assert bs[..|bs|] == bs;
    }

    /** o = start: what was written from there on is given up. */
    method Rewind(start: nat)
      requires Valid() && start <= len
      modifies this`len
      ensures Valid() && len == start
      ensures Contents() == old(Contents())[..start]
    {
      len := start;
    }

    /** Overwrite bytes that are already there. */
    method Patch(at: nat, bs: seq<byte>)
      requires Valid() && at + |bs| <= len
      modifies data
      ensures Contents() == old(Contents())[..at] + bs + old(Contents())[at + |bs|..]
    {
      ghost var before := Contents();
      for i := 0 to |bs|
        invariant forall k :: 0 <= k < at || at + i <= k < len ==> data[k] == before[k]
        invariant forall k :: 0 <= k < i ==> data[at + k] == bs[k]
      {
        data[at + i] := bs[i];
      }
    }
  }
}
