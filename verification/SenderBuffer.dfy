/**
 The sender's store of recent packets in src/retransmit.js: one ring per SSRC, indexed by sequence number.
 */
module SenderBufferModel {
  import opened Options
  import opened Rtp
  import opened SeqNum
  import opened Wire

  datatype Slot = Slot(num: u16, packet: Bytes)

  type Ring = seq<Option<Slot>>
  type Rings = map<u32, Ring>

  const DEFAULT_SIZE := 512

  function SsrcOf(p: Bytes): u32
    requires |p| >= HEADER_SIZE
  {
    GetU32(p, 8)
  }

  function NumOf(p: Bytes): u16
    requires |p| >= HEADER_SIZE
  {
    GetU16(p, 2)
  }

  function SlotOf(num: u16, size: nat): nat
    requires size > 0
  {
    num % size
  }

  ghost predicate Sized(rings: Rings, size: nat) {
    size > 0 && forall s :: s in rings ==> |rings[s]| == size
  }

  function NewRing(size: nat): (r: Ring)
    ensures |r| == size && forall i :: 0 <= i < size ==> r[i] == None
  {
    seq(size, _ => None)
  }

  function Stored(rings: Rings, size: nat, p: Bytes): (r: Rings)
    requires Sized(rings, size)
    ensures Sized(r, size)
  {
    if |p| < HEADER_SIZE then rings
    else
      var s := SsrcOf(p);
      var ring := if s in rings then rings[s] else NewRing(size);
      rings[s := ring[SlotOf(NumOf(p), size) := Some(Slot(NumOf(p), p))]]
  }

  function Fetched(rings: Rings, size: nat, ssrc: u32, num: u16): Option<Bytes>
    requires Sized(rings, size)
  {
    if ssrc !in rings then None
    else
      match rings[ssrc][SlotOf(num, size)]
      case None => None
      case Some(slot) => if slot.num == num then Some(slot.packet) else None
  }

  function StoreAll(rings: Rings, size: nat, packets: seq<Bytes>): (r: Rings)
    requires Sized(rings, size)
    ensures Sized(r, size)
  {
    if packets == [] then rings
    else Stored(StoreAll(rings, size, packets[..|packets| - 1]), size, packets[|packets| - 1])
  }

  // ------------------------------------------------------------------
  // What a ring holds after any run
  // ------------------------------------------------------------------

  predicate TakesSlot(p: Bytes, ssrc: u32, size: nat, slot: nat)
    requires size > 0
  {
    |p| >= HEADER_SIZE && SsrcOf(p) == ssrc && SlotOf(NumOf(p), size) == slot
  }

  /** The last packet of this SSRC that fell into this slot. */
  function LastInSlot(packets: seq<Bytes>, ssrc: u32, size: nat, slot: nat): (p: Option<Bytes>)
    requires size > 0
    ensures p.Some? ==> |p.value| >= HEADER_SIZE
  {
    if packets == [] then None
    else if TakesSlot(packets[|packets| - 1], ssrc, size, slot) then Some(packets[|packets| - 1])
    else LastInSlot(packets[..|packets| - 1], ssrc, size, slot)
  }

  /** After any run a packet can be fetched exactly when it is the last one of its SSRC in its slot: packets
      of other SSRCs never matter. */
  lemma {:induction false} GetIsLast(size: nat, packets: seq<Bytes>, ssrc: u32, num: u16)
    requires size > 0
    ensures var last := LastInSlot(packets, ssrc, size, SlotOf(num, size));
            (Fetched(StoreAll(map[], size, packets), size, ssrc, num)
             == if last.Some? && NumOf(last.value) == num then last else None)
    decreases |packets|
  {
    if packets != [] {
      hide SsrcOf, NumOf, SlotOf;
      var init, p := packets[..|packets| - 1], packets[|packets| - 1];
      SlotInRange(num, size);
      GetIsLast(size, init, ssrc, num);
      if |p| >= HEADER_SIZE {
        SlotInRange(NumOf(p), size);
      }
    }
  }

  lemma SlotInRange(num: u16, size: nat)
    requires size > 0
    ensures SlotOf(num, size) < size
  {
  }

  // ------------------------------------------------------------------
  // Consecutive numbers
  // ------------------------------------------------------------------

  /** Numbers less than `size` positions apart never share a slot. */
  ghost predicate SlotsApart(size: nat)
    requires size > 0
  {
    forall a: nat, b: nat :: a < b < a + size ==> SlotOf(Wrap(a), size) != SlotOf(Wrap(b), size)
  }

  lemma Divides(a: nat, b: nat, size: nat)
    requires size > 0 && 0x1_0000 % size == 0 && a < b < a + size
    ensures SlotOf(Wrap(a), size) != SlotOf(Wrap(b), size)
  {
    SlotOfPosition(a, size);
    SlotOfPosition(b, size);
    if a % size == b % size {
      var qa, qb := a / size, b / size;
      assert b - a == (qb - qa) * size;
      Multiples(qb - qa, size);
    }
  }

  lemma Multiples(k: int, size: nat)
    requires size > 0
    ensures k >= 1 ==> k * size >= size
    ensures k <= 0 ==> k * size <= 0
    ensures k <= -1 ==> k * size <= 0 - size
  {
    if k >= 1 {
      assert k * size == (k - 1) * size + size;
    } else {
      assert (-k) * size >= 0;
    }
  }

  /** When the size divides 2^16, wrapping the number does not move its slot. */
  lemma SlotOfPosition(a: nat, size: nat)
    requires size > 0 && 0x1_0000 % size == 0
    ensures SlotOf(Wrap(a), size) == a % size
  {
    var times, turns := 0x1_0000 / size, a / 0x1_0000;
    assert 0x1_0000 == times * size;
    assert a == turns * 0x1_0000 + a % 0x1_0000;
    assert turns * (times * size) == (turns * times) * size;
    AddMultiple(turns * times, size, a % 0x1_0000);
  }

  lemma AddMultiple(k: nat, size: nat, x: nat)
    requires size > 0
    ensures (k * size + x) % size == x % size
  {
    var q, r := x / size, x % size;
    assert k * size + x == (k + q) * size + r;
    UniqueRemainder(k * size + x, size, k + q, r);
  }

  lemma UniqueRemainder(n: nat, size: nat, q: nat, r: nat)
    requires size > 0 && r < size && n == q * size + r
    ensures n % size == r
  {
    var d := n / size - q;
    assert n == (n / size) * size + n % size;
    assert d * size == r - n % size by {
      assert (n / size) * size == q * size + d * size;
    }
    Multiples(d, size);
  }

  /** Two positions less than `size` apart that share a slot, when the size does not divide 2^16. */
  function Clash(size: nat): nat
    requires size > 0 && 0x1_0000 % size != 0
  {
    if size <= 0x1_0000 then 0x1_0000 - 0x1_0000 % size else 0
  }

  lemma Clashes(size: nat)
    requires size > 0 && 0x1_0000 % size != 0
    ensures var a := Clash(size);
            a < 0x1_0000 < a + size && SlotOf(Wrap(a), size) == SlotOf(Wrap(0x1_0000), size) == 0
  {
    var a := Clash(size);
    if size <= 0x1_0000 {
      var q := 0x1_0000 / size;
      assert a == q * size;
      UniqueRemainder(a, size, q, 0);
      assert 0 % size == 0;
    }
  }

  lemma ApartExact(size: nat)
    requires size > 0
    ensures SlotsApart(size) <==> 0x1_0000 % size == 0
  {
    if 0x1_0000 % size == 0 {
      forall a: nat, b: nat | a < b < a + size ensures SlotOf(Wrap(a), size) != SlotOf(Wrap(b), size) {
        Divides(a, b, size);
      }
    } else {
      Clashes(size);
    }
  }

  /** The packets of this SSRC, in order. */
  function Only(packets: seq<Bytes>, ssrc: u32): seq<Bytes> {
    if packets == [] then []
    else
      var p := packets[|packets| - 1];
      Only(packets[..|packets| - 1], ssrc) + if |p| >= HEADER_SIZE && SsrcOf(p) == ssrc then [p] else []
  }

  /** One SSRC's packets are numbered consecutively from position `first` on. */
  ghost predicate Consecutive(own: seq<Bytes>, first: nat) {
    forall i :: 0 <= i < |own| ==> |own[i]| >= HEADER_SIZE && NumOf(own[i]) == Wrap(first + i)
  }

  lemma {:induction false} LastAmongOwn(packets: seq<Bytes>, ssrc: u32, size: nat, slot: nat)
    requires size > 0
    ensures LastInSlot(packets, ssrc, size, slot) == LastInSlot(Only(packets, ssrc), ssrc, size, slot)
    decreases |packets|
  {
    if packets != [] {
      var init, p := packets[..|packets| - 1], packets[|packets| - 1];
      LastAmongOwn(init, ssrc, size, slot);
      var own := Only(packets, ssrc);
      if |p| >= HEADER_SIZE && SsrcOf(p) == ssrc {
        assert own[..|own| - 1] == Only(init, ssrc);
      } else {
        assert own == Only(init, ssrc);
      }
    }
  }

  lemma {:induction false} OnlyOwn(packets: seq<Bytes>, ssrc: u32)
    ensures forall i :: 0 <= i < |Only(packets, ssrc)| ==>
              |Only(packets, ssrc)[i]| >= HEADER_SIZE && SsrcOf(Only(packets, ssrc)[i]) == ssrc
    decreases |packets|
  {
    if packets != [] {
      OnlyOwn(packets[..|packets| - 1], ssrc);
    }
  }

  ghost predicate OwnedBy(own: seq<Bytes>, ssrc: u32) {
    forall i :: 0 <= i < |own| ==> |own[i]| >= HEADER_SIZE && SsrcOf(own[i]) == ssrc
  }

  /** Packet `i` stays in its slot until a later one takes it. */
  lemma {:induction false} StaysLast(own: seq<Bytes>, ssrc: u32, size: nat, i: nat, slot: nat)
    requires size > 0 && i < |own| && OwnedBy(own, ssrc) && slot == SlotOf(NumOf(own[i]), size)
    requires forall j :: i < j < |own| ==> SlotOf(NumOf(own[j]), size) != slot
    ensures LastInSlot(own, ssrc, size, slot) == Some(own[i])
    decreases |own|
  {
    hide SlotOf, NumOf, SsrcOf;
    if i < |own| - 1 {
      StaysLast(own[..|own| - 1], ssrc, size, i, slot);
    }
  }

  /** With a size dividing 2^16, any of the last `size` consecutively numbered packets of an SSRC can be
      fetched, whatever other SSRCs stored in between. */
  lemma LastSizeFetched(size: nat, packets: seq<Bytes>, ssrc: u32, first: nat, i: nat)
    requires size > 0 && 0x1_0000 % size == 0
    requires var own := Only(packets, ssrc); Consecutive(own, first) && i < |own| <= i + size
    ensures Fetched(StoreAll(map[], size, packets), size, ssrc, Wrap(first + i)) == Some(Only(packets, ssrc)[i])
  {
    var own, slot := Only(packets, ssrc), SlotOf(Wrap(first + i), size);
    OnlyOwn(packets, ssrc);
    GetIsLast(size, packets, ssrc, Wrap(first + i));
    LastAmongOwn(packets, ssrc, size, slot);
    forall j | i < j < |own| ensures SlotOf(NumOf(own[j]), size) != slot {
      Divides(first + i, first + j, size);
    }
    StaysLast(own, ssrc, size, i, slot);
  }

  /** Positions 0 to n-1, one empty packet each. */
  function Marked(n: nat): (packets: seq<Bytes>)
    ensures |packets| == n
  {
    seq(n, i requires 0 <= i < n => MakePacket(0, Wrap(i), i % 0x1_0000_0000, 0, false, []))
  }

  lemma MarkedIs(n: nat, i: nat)
    requires i < n
    ensures var p := Marked(n)[i];
            |p| >= HEADER_SIZE && NumOf(p) == Wrap(i) && SsrcOf(p) == 0 && GetU32(p, 4) == i % 0x1_0000_0000
  {
    hide Header;
    HeaderReads(Marked(n)[i], 0x80, 0, Wrap(i), i % 0x1_0000_0000, 0, false);
  }

  lemma {:induction false} OnlyAll(packets: seq<Bytes>, ssrc: u32)
    requires OwnedBy(packets, ssrc)
    ensures Only(packets, ssrc) == packets
    decreases |packets|
  {
    if packets != [] {
      var init := packets[..|packets| - 1];
      OnlyAll(init, ssrc);
      assert packets == init + [packets[|packets| - 1]];
    }
  }

  ghost predicate KeepsLast(size: nat, packets: seq<Bytes>, ssrc: u32, first: nat, i: nat)
    requires size > 0
  {
    var own := Only(packets, ssrc);
    Consecutive(own, first) && i < |own| <= i + size ==>
      Fetched(StoreAll(map[], size, packets), size, ssrc, Wrap(first + i)) == Some(own[i])
  }

  /** The last `size` packets can be fetched in every run exactly when the size divides 2^16. */
  lemma RingExact(size: nat)
    requires size > 0
    ensures (forall packets: seq<Bytes>, ssrc: u32, first: nat, i: nat :: KeepsLast(size, packets, ssrc, first, i))
       <==> 0x1_0000 % size == 0
  {
    if 0x1_0000 % size == 0 {
      forall packets: seq<Bytes>, ssrc: u32, first: nat, i: nat ensures KeepsLast(size, packets, ssrc, first, i) {
        if Consecutive(Only(packets, ssrc), first) && i < |Only(packets, ssrc)| <= i + size {
          LastSizeFetched(size, packets, ssrc, first, i);
        }
      }
    } else {
      LastSizeLost(size);
    }
  }

  /** The run of positions 0 to 2^16: the packet at the clash is gone though it is among the last `size`. */
  lemma LastSizeLost(size: nat)
    requires size > 0 && 0x1_0000 % size != 0
    ensures !KeepsLast(size, Marked(0x1_0001), 0, 0, Clash(size))
  {
    hide MakePacket, Marked, SlotOf, NumOf, SsrcOf, Clash;
    var packets, a := Marked(0x1_0001), Clash(size);
    Clashes(size);
    forall i | 0 <= i < |packets|
      ensures |packets[i]| >= HEADER_SIZE && NumOf(packets[i]) == Wrap(0 + i) && SsrcOf(packets[i]) == 0
    {
      MarkedIs(0x1_0001, i);
    }
    OnlyAll(packets, 0);
    GetIsLast(size, packets, 0, Wrap(a));
    assert LastInSlot(packets, 0, size, 0) == Some(packets[0x1_0000]);
    MarkedIs(0x1_0001, a);
    MarkedIs(0x1_0001, 0x1_0000);
    assert packets[0x1_0000] != packets[a];
  }

  // ------------------------------------------------------------------
  // The object
  // ------------------------------------------------------------------

  class SenderBuffer {
    const size: nat
    var rings: map<u32, array<Option<Slot>>>
    ghost var Repr: set<object>

    ghost predicate Valid()
      reads this, Repr
    {
      && size > 0 && this in Repr
      && (forall s :: s in rings ==> rings[s] in Repr && rings[s].Length == size)
      && (forall s, t :: s in rings && t in rings && s != t ==> rings[s] != rings[t])
    }

    ghost function Abs(): (r: Rings)
      requires Valid()
      reads this, Repr
      ensures Sized(r, size)
    {
      map s | s in rings :: rings[s][..]
    }

    constructor (size: nat)
      ensures Valid() && fresh(Repr) && Abs() == map[]
      ensures this.size == if size == 0 then DEFAULT_SIZE else size
    {
      this.size := if size == 0 then DEFAULT_SIZE else size;
      rings, Repr := map[], {this};
    }

    method Store(p: Bytes)
      requires Valid()
      modifies Repr
      ensures Valid() && fresh(Repr - old(Repr))
      ensures Abs() == Stored(old(Abs()), size, p)
    {
      if |p| < HEADER_SIZE {
        return;
      }
      hide SsrcOf, NumOf, SlotOf;
      var ssrc, num := SsrcOf(p), NumOf(p);
      Open(ssrc);
      SlotInRange(num, size);
      Write(ssrc, SlotOf(num, size), Slot(num, p));
    }

    method Write(ssrc: u32, i: nat, slot: Slot)
      requires Valid() && ssrc in rings && i < size
      modifies rings[ssrc]
      ensures Valid()
      ensures Abs() == old(Abs())[ssrc := old(Abs())[ssrc][i := Some(slot)]]
    {
      rings[ssrc][i] := Some(slot);
      assert forall s :: s in rings && s != ssrc ==> rings[s][..] == old(rings[s][..]);
      assert rings[ssrc][..] == old(rings[ssrc][..])[i := Some(slot)];
    }

    /** A ring of empty slots for an SSRC not seen before. */
    method Open(ssrc: u32)
      requires Valid()
      modifies Repr
      ensures Valid() && fresh(Repr - old(Repr)) && ssrc in rings
      ensures Abs() == if ssrc in old(Abs()) then old(Abs()) else old(Abs())[ssrc := NewRing(size)]
    {
      ghost var before := Abs();
      if ssrc !in rings {
        var ring := new Option<Slot>[size](_ => None);
        assert ring[..] == NewRing(size);
        rings := rings[ssrc := ring];
        Repr := Repr + {ring};
        assert Abs() == before[ssrc := NewRing(size)];
      }
    }

    method Get(ssrc: u32, num: u16) returns (r: Option<Bytes>)
      requires Valid()
      ensures r == Fetched(Abs(), size, ssrc, num)
    {
      if ssrc !in rings {
        return None;
      }
      var slot := rings[ssrc][SlotOf(num, size)];
      if slot.None? || slot.value.num != num {
        return None;
      }
      r := Some(slot.value.packet);
    }

    /** One SSRC's store, or with no SSRC all of them. */
    method Clear(ssrc: Option<u32>)
      requires Valid()
      modifies this
      ensures Valid() && Repr == old(Repr)
      ensures Abs() == if ssrc.None? then map[] else old(Abs()) - {ssrc.value}
    {
      ghost var before := Abs();
      if ssrc.None? {
        rings := map[];
      } else {
        rings := rings - {ssrc.value};
        assert Abs() == before - {ssrc.value};
      }
    }
  }
}
