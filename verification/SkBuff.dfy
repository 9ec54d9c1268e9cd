/** A linear socket buffer: a byte buffer with headroom and tailroom around the frame. */
module SkBuff {
  import opened Words

  /** `s` with `v` written at offset `at`. */
  function Overwrite(s: seq<byte>, at: nat, v: seq<byte>): (r: seq<byte>)
    requires at + |v| <= |s|
    ensures |r| == |s|
    ensures forall k :: 0 <= k < |s| ==> r[k] == if at <= k < at + |v| then v[k - at] else s[k]
  {
    s[..at] + v + s[at + |v|..]
  }

  class Skb {
    const buf: array<byte>
    var data: nat
    var len: nat

    constructor (buf: array<byte>, data: nat, len: nat)
      ensures this.buf == buf && this.data == data && this.len == len
    {
      this.buf, this.data, this.len := buf, data, len;
    }

    ghost predicate Valid()
      reads this
    {
      data + len <= buf.Length
    }

    /** The frame. */
    function Bytes(): seq<byte>
      requires Valid()
      reads this, buf
    {
      buf[data..data + len]
    }

    /** memcpy into the buffer, at an offset from the start of the frame. */
    method Write(at: nat, v: seq<byte>)
      requires data + at + |v| <= buf.Length
      modifies buf
      ensures buf[..] == Overwrite(old(buf[..]), data + at, v)
    {
      ghost var was := buf[..];
      forall k | 0 <= k < |v| {
        buf[data + at + k] := v[k];
      }
      assert buf[..] == Overwrite(was, data + at, v);
    }
  }
}
