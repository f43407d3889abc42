/** 16-bit circular sequence numbers, as every module of the library uses them. */
module SeqNum {

  type u16 = n: int | 0 <= n < 0x1_0000

  /** The 16-bit number of an unbounded position. */
  function Wrap(n: int): u16 {
    n % 0x1_0000
  }

  function Next(n: u16): u16 {
    if n == 0xFFFF then 0 else n + 1
  }

  /** How far `to` lies ahead of `from` on the circle. */
  function Forward(from: u16, to: u16): u16 {
    if from <= to then to - from else to - from + 0x1_0000
  }

  /** Signed 16-bit difference, in -0x7FFF..0x8000. */
  function SeqDiff(a: u16, b: u16): int {
    var d := Forward(b, a);
    if d > 0x8000 then d - 0x1_0000 else d
  }

  /** Stepping a position steps its number, and moving `n` ahead moves the number `n` ahead. */
  lemma WrapForward(pos: int, to: u16)
    ensures Wrap(pos + Forward(Wrap(pos), to)) == to
    ensures Wrap(pos + 1) == Next(Wrap(pos))
  {
  }

  lemma WrapAdd(pos: int, n: int)
    ensures Wrap(Wrap(pos) + n) == Wrap(pos + n)
  {
  }

  lemma ForwardWrap(base: u16, d: nat)
    requires d < 0x1_0000
    ensures Forward(base, Wrap(base + d)) == d
    ensures forall n: u16 :: Forward(base, n) == d ==> n == Wrap(base + d)
  {
  }
}
