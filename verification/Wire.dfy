/** Bytes and big-endian fields, as the source reads and writes them in buffers. */
module Wire {
  import opened Bits
  import opened SeqNum

  type byte = n: int | 0 <= n < 0x100
  type u32 = n: int | 0 <= n < 0x1_0000_0000
  type Bytes = seq<byte>

  function PutU16(v: u16): (b: Bytes)
    ensures |b| == 2
  {
    [v / 0x100, v % 0x100]
  }

  function PutU32(v: u32): (b: Bytes)
    ensures |b| == 4
  {
    PutU16(v / 0x1_0000) + PutU16(v % 0x1_0000)
  }

  function GetU16(b: Bytes, i: nat): u16
    requires i + 2 <= |b|
  {
    (b[i] as int) * 0x100 + b[i + 1]
  }

  function GetU32(b: Bytes, i: nat): u32
    requires i + 4 <= |b|
  {
    (GetU16(b, i) as int) * 0x1_0000 + GetU16(b, i + 2)
  }

  function Zeros(n: nat): (b: Bytes)
    ensures |b| == n && forall i :: 0 <= i < n ==> b[i] == 0
  {
    seq(n, _ => 0)
  }

  /** `bytes` stands in `b` at offset `off`. */
  ghost predicate Holds(b: Bytes, off: nat, bytes: Bytes) {
    off + |bytes| <= |b| && b[off..off + |bytes|] == bytes
  }

  lemma HoldsSplit(b: Bytes, off: nat, x: Bytes, y: Bytes)
    ensures Holds(b, off, x + y) <==> Holds(b, off, x) && Holds(b, off + |x|, y)
  {
    if Holds(b, off, x + y) {
      var xy := b[off..off + |x + y|];
      assert b[off..off + |x|] == xy[..|x|];
      assert b[off + |x|..off + |x| + |y|] == xy[|x|..];
    }
    if Holds(b, off, x) && Holds(b, off + |x|, y) {
      assert b[off..off + |x + y|] == b[off..off + |x|] + b[off + |x|..off + |x| + |y|];
    }
  }

  lemma HoldsPrefix(x: Bytes, tail: Bytes)
    ensures Holds(x + tail, 0, x)
  {
  }

  /** A field written somewhere in a buffer reads back. */
  lemma GetPut16(b: Bytes, i: nat, v: u16)
    requires Holds(b, i, PutU16(v))
    ensures GetU16(b, i) == v
  {
    assert b[i] == b[i..i + 2][0] && b[i + 1] == b[i..i + 2][1];
  }

  lemma GetPut32(b: Bytes, i: nat, v: u32)
    requires Holds(b, i, PutU32(v))
    ensures GetU32(b, i) == v
  {
    hide PutU16, GetU16;
    HoldsSplit(b, i, PutU16(v / 0x1_0000), PutU16(v % 0x1_0000));
    GetPut16(b, i, v / 0x1_0000);
    GetPut16(b, i + 2, v % 0x1_0000);
  }

  /** A field read from a buffer writes back the same bytes. */
  lemma PutGet16(b: Bytes, i: nat)
    requires i + 2 <= |b|
    ensures PutU16(GetU16(b, i)) == b[i..i + 2]
  {
  }

  lemma PutGet32(b: Bytes, i: nat)
    requires i + 4 <= |b|
    ensures PutU32(GetU32(b, i)) == b[i..i + 4]
  {
    hide PutU16, GetU16;
    PutGet16(b, i);
    PutGet16(b, i + 2);
    assert b[i..i + 4] == b[i..i + 2] + b[i + 2..i + 4];
  }

  function Pack16(bits: seq<bool>): u16
    requires |bits| == 16
  {
    Pow2Words();
    Pack(bits)
  }

  function Pack32(bits: seq<bool>): u32
    requires |bits| == 32
  {
    Pow2Words();
    Pack(bits)
  }
}
