/** Fixed-size byte buffers written in place: Node's Buffer with copy and the big-endian writers. */
module Buffers {
  import opened SeqNum
  import opened Wire

  /** `s` with `bytes` written over it from `at` on. */
  function Over(s: Bytes, at: nat, bytes: Bytes): (r: Bytes)
    requires at + |bytes| <= |s|
    ensures |r| == |s|
  {
    s[..at] + bytes + s[at + |bytes|..]
  }

  method Copy(src: Bytes, buf: array<byte>, at: nat)
    requires at + |src| <= buf.Length
    modifies buf
    ensures buf[..] == Over(old(buf[..]), at, src)
    ensures buf[..at + |src|] == old(buf[..at]) + src
  {
    for i := 0 to |src|
      invariant buf[..at] == old(buf[..at])
      invariant buf[at..at + i] == src[..i]
      invariant buf[at + i..] == old(buf[at + i..])
    {
      buf[at + i] := src[i];
      assert buf[at..at + i + 1] == buf[at..at + i] + [src[i]];
      assert buf[at + i + 1..] == buf[at + i..][1..];
    }
    assert src[..|src|] == src;
    assert buf[..] == buf[..at] + buf[at..at + |src|] + buf[at + |src|..];
    assert buf[..at + |src|] == buf[..at] + buf[at..at + |src|];
  }

  method WriteU16(buf: array<byte>, at: nat, v: u16)
    requires at + 2 <= buf.Length
    modifies buf
    ensures buf[..] == Over(old(buf[..]), at, PutU16(v))
  {
    buf[at], buf[at + 1] := v / 0x100, v % 0x100;
    assert buf[..] == buf[..at] + [v / 0x100, v % 0x100] + buf[at + 2..];
  }

  method WriteU32(buf: array<byte>, at: nat, v: u32)
    requires at + 4 <= buf.Length
    modifies buf
    ensures buf[..] == Over(old(buf[..]), at, PutU32(v))
  {
    WriteU16(buf, at, v / 0x1_0000);
    WriteU16(buf, at + 2, v % 0x1_0000);
  }
}
