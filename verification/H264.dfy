/**
 H.264 over RTP in src/h264.js (RFC 6184 sections 5.6 to 5.8): the packetizer, the depacketizer, and the
 access units that travel between them.
 */
module H264 {
  import opened H264Split
  import opened Options
  import opened Rtp
  import opened SeqNum
  import opened Wire

  const MIN_MTU := 100
  const STAP_A := 24
  const FU_A := 28

  function TypeOf(b: byte): (t: nat)
    ensures t < 0x20
  {
    b as int % 0x20
  }

  /** The two reference bits of a NAL header, in place. */
  function RefBits(b: byte): (r: nat)
    ensures r <= 0x60 && r % 0x20 == 0
  {
    b / 0x20 % 4 * 0x20
  }

  // ------------------------------------------------------------------
  // Packetizer
  // ------------------------------------------------------------------

  /** An RTP payload and its marker bit. */
  datatype Piece = Piece(payload: Bytes, marker: bool)

  function FuHeader(start: bool, end: bool, kind: nat): byte
    requires kind < 0x20
  {
    (if start then 0x80 else 0) + (if end then 0x40 else 0) + kind
  }

  /** The fragments from `offset` bytes after the NAL header on. */
  function Fragments(n: Nalu, mtu: nat, offset: nat, last: bool): seq<Piece>
    requires |n| > 0 && mtu >= MIN_MTU
    decreases |n| - offset
  {
    var left := |n| - 1 - offset;
    if left <= 0 then []
    else
      var size := if mtu - 2 <= left then mtu - 2 else left;
      var end := size == left;
      [Piece([RefBits(n[0]) + FU_A, FuHeader(offset == 0, end, TypeOf(n[0]))] + n[1 + offset..1 + offset + size],
             end && last)]
      + Fragments(n, mtu, offset + size, last)
  }

  function PiecesOf(n: Nalu, mtu: nat, last: bool): seq<Piece>
    requires mtu >= MIN_MTU
  {
    if |n| <= mtu then [Piece(n, last)] else Fragments(n, mtu, 0, last)
  }

  function Pieces(nalus: seq<Nalu>, mtu: nat): seq<Piece>
    requires mtu >= MIN_MTU
  {
    if nalus == [] then [] else PiecesOf(nalus[0], mtu, |nalus| == 1) + Pieces(nalus[1..], mtu)
  }

  datatype Sender = Sender(payloadType: PayloadType, ssrc: u32)

  /** The packets that carry the pieces, numbered from `num` on. */
  function Packets(to: Sender, pieces: seq<Piece>, num: u16, ts: u32): (packets: seq<Bytes>)
    ensures |packets| == |pieces|
  {
    if pieces == [] then []
    else [MakePacket(to.payloadType, num, ts, to.ssrc, pieces[0].marker, pieces[0].payload)]
         + Packets(to, pieces[1..], Next(num), ts)
  }

  // ------------------------------------------------------------------
  // What leaves
  // ------------------------------------------------------------------

  /** Types 1 to 23 with the forbidden bit clear. */
  ghost predicate Proper(n: Nalu) {
    n != [] && 1 <= TypeOf(n[0]) <= 23 && n[0] < 0x80
  }

  ghost predicate AllProper(nalus: seq<Nalu>) {
    forall i :: 0 <= i < |nalus| ==> Proper(nalus[i])
  }

  /** A fragment is no start and end at once. */
  ghost predicate FitsAlone(p: Bytes, mtu: nat) {
    && 0 < |p| <= mtu
    && (TypeOf(p[0]) == FU_A ==> |p| > 2 && !(p[1] >= 0x80 && p[1] / 0x40 % 2 == 1))
  }

  /** Every payload fits, and only the last piece of the last unit is marked. */
  ghost predicate WellFormed(pieces: seq<Piece>, mtu: nat, last: bool) {
    forall i :: 0 <= i < |pieces| ==>
      FitsAlone(pieces[i].payload, mtu) && (pieces[i].marker <==> last && i == |pieces| - 1)
  }

  lemma FuBits(start: bool, end: bool, kind: nat)
    requires kind < 0x20
    ensures var h := FuHeader(start, end, kind);
            (h >= 0x80 <==> start) && (h / 0x40 % 2 == 1 <==> end) && TypeOf(h) == kind
  {
  }

  lemma RefAndType(b: byte)
    ensures TypeOf(RefBits(b) + FU_A) == FU_A && RefBits(RefBits(b) + FU_A) == RefBits(b)
    ensures b < 0x80 ==> RefBits(b) + TypeOf(b) == b
  {
  }

  lemma {:induction false} FragmentsFit(n: Nalu, mtu: nat, offset: nat, last: bool)
    requires |n| > 0 && mtu >= MIN_MTU && offset < |n| - 1 && (offset == 0 ==> |n| > mtu)
    ensures WellFormed(Fragments(n, mtu, offset, last), mtu, last) && Fragments(n, mtu, offset, last) != []
    decreases |n| - offset
  {
    hide RefBits, TypeOf, FuHeader;
    var left := |n| - 1 - offset;
    var size := if mtu - 2 <= left then mtu - 2 else left;
    FuBits(offset == 0, size == left, TypeOf(n[0]));
    RefAndType(n[0]);
    if size < left {
      FragmentsFit(n, mtu, offset + size, last);
    } else {
      assert Fragments(n, mtu, offset + size, last) == [];
    }
  }

  lemma {:induction false} PiecesFit(nalus: seq<Nalu>, mtu: nat)
    requires mtu >= MIN_MTU && AllProper(nalus)
    ensures WellFormed(Pieces(nalus, mtu), mtu, nalus != []) && (nalus != [] ==> Pieces(nalus, mtu) != [])
    decreases |nalus|
  {
    hide TypeOf, Fragments;
    if nalus != [] {
      var n, last := nalus[0], |nalus| == 1;
      assert Proper(n);
      if |n| > mtu {
        FragmentsFit(n, mtu, 0, last);
      }
      assert WellFormed(PiecesOf(n, mtu, last), mtu, last);
      PiecesFit(nalus[1..], mtu);
      assert last ==> Pieces(nalus[1..], mtu) == [];
    }
  }

  lemma {:induction false} PacketsNumbered(to: Sender, pieces: seq<Piece>, num: u16, ts: u32, k: nat)
    requires k < |pieces|
    ensures var p := Parse(Packets(to, pieces, num, ts)[k]);
            && p.Some? && p.value.num == Wrap(num + k) && p.value.ts == ts && p.value.ssrc == to.ssrc
            && p.value.payloadType == to.payloadType
            && p.value.payload == pieces[k].payload && p.value.marker == pieces[k].marker
    decreases k
  {
    hide MakePacket, Parse;
    if k == 0 {
      MadeParses(to.payloadType, num, ts, to.ssrc, pieces[0].marker, pieces[0].payload);
    } else {
      WrapForward(num, 0);
      WrapAdd(num + 1, k - 1);
      PacketsNumbered(to, pieces[1..], Next(num), ts, k - 1);
    }
  }

  /** On the wire: every payload fits the MTU, numbers are consecutive, only the last packet is marked, and no
      fragment is start and end at once. */
  lemma WireFit(to: Sender, nalus: seq<Nalu>, mtu: nat, num: u16, ts: u32, k: nat)
    requires mtu >= MIN_MTU && AllProper(nalus)
    requires k < |Pieces(nalus, mtu)|
    ensures var packets := Packets(to, Pieces(nalus, mtu), num, ts);
            var p := Parse(packets[k]);
            && p.Some? && p.value.num == Wrap(num + k)
            && FitsAlone(p.value.payload, mtu)
            && (p.value.marker <==> k == |packets| - 1)
  {
    PiecesFit(nalus, mtu);
    PacketsNumbered(to, Pieces(nalus, mtu), num, ts, k);
  }

  // ------------------------------------------------------------------
  // Depacketizer
  // ------------------------------------------------------------------

  datatype State = State(nalus: seq<Nalu>, fragments: seq<Bytes>, sawIdr: bool)

  datatype AccessUnit = AccessUnit(data: Bytes, ts: u32, isKey: bool)

  datatype Turn = Turn(st: State, out: seq<AccessUnit>, errors: nat)

  function Concat(parts: seq<Bytes>): Bytes {
    if parts == [] then [] else parts[0] + Concat(parts[1..])
  }

  predicate IsIdr(n: Nalu) {
    n != [] && TypeOf(n[0]) == 5
  }

  function AddNalu(st: State, n: Nalu): State {
    st.(nalus := st.nalus + [n], sawIdr := st.sawIdr || IsIdr(n))
  }

  /** The units of an aggregation packet from `off` on; a length past the end is an error and ends the walk. */
  function Aggregated(st: State, p: Bytes, off: nat): Turn
    decreases |p| - off
  {
    if off + 2 > |p| then Turn(st, [], 0)
    else
      var size := GetU16(p, off);
      if size == 0 then Aggregated(st, p, off + 2)
      else if off + 2 + size > |p| then Turn(st, [], 1)
      else Aggregated(AddNalu(st, p[off + 2..off + 2 + size]), p, off + 2 + size)
  }

  function Fragment(st: State, p: Bytes): State
    requires |p| >= 2
  {
    var started := if p[1] >= 0x80 then [[RefBits(p[0]) + TypeOf(p[1])]] else st.fragments;
    var fragments := started + [p[2..]];
    if p[1] / 0x40 % 2 == 1 then AddNalu(st.(fragments := []), Concat(fragments)) else st.(fragments := fragments)
  }

  function Emit(turn: Turn, marker: bool, ts: u32): Turn {
    var st := turn.st;
    if marker && st.nalus != []
    then Turn(State([], st.fragments, false), [AccessUnit(JoinAnnexB(st.nalus), ts, st.sawIdr)], turn.errors)
    else turn
  }

  /** An empty payload is ignored; an unsupported type or a fragment that cannot be placed is reported, and
      its marker bit with it ignored. */
  function Receive(st: State, marker: bool, ts: u32, p: Bytes): Turn {
    if p == [] then Turn(st, [], 0)
    else if 1 <= TypeOf(p[0]) <= 23 then Emit(Turn(AddNalu(st, p), [], 0), marker, ts)
    else if TypeOf(p[0]) == STAP_A then Emit(Aggregated(st, p, 1), marker, ts)
    else if TypeOf(p[0]) != FU_A || |p| < 2 || (p[1] < 0x80 && st.fragments == []) then Turn(st, [], 1)
    else Emit(Turn(Fragment(st, p), [], 0), marker, ts)
  }

  function Then(turn: Turn, next: Turn): Turn {
    Turn(next.st, turn.out + next.out, turn.errors + next.errors)
  }

  function ReceiveOne(st: State, packet: Bytes): Turn {
    match Parse(packet)
    case None => Turn(st, [], 0)
    case Some(p) => Receive(st, p.marker, p.ts, p.payload)
  }

  /** Parsing each packet and handing it to the depacketizer. */
  function ReceiveAll(st: State, packets: seq<Bytes>): Turn
    decreases |packets|
  {
    if packets == [] then Turn(st, [], 0)
    else
      var first := ReceiveOne(st, packets[0]);
      Then(first, ReceiveAll(first.st, packets[1..]))
  }

  function ReceivePieces(st: State, pieces: seq<Piece>, ts: u32): Turn
    decreases |pieces|
  {
    if pieces == [] then Turn(st, [], 0)
    else
      var first := Receive(st, pieces[0].marker, ts, pieces[0].payload);
      Then(first, ReceivePieces(first.st, pieces[1..], ts))
  }

  lemma {:induction false} WireCarries(st: State, to: Sender, pieces: seq<Piece>, num: u16, ts: u32)
    ensures ReceiveAll(st, Packets(to, pieces, num, ts)) == ReceivePieces(st, pieces, ts)
    decreases |pieces|
  {
    hide MakePacket, Parse, Receive;
    if pieces != [] {
      MadeParses(to.payloadType, num, ts, to.ssrc, pieces[0].marker, pieces[0].payload);
      var packets := Packets(to, pieces, num, ts);
      assert packets[1..] == Packets(to, pieces[1..], Next(num), ts);
      WireCarries(Receive(st, pieces[0].marker, ts, pieces[0].payload).st, to, pieces[1..], Next(num), ts);
    }
  }

  // ------------------------------------------------------------------
  // Round trip
  // ------------------------------------------------------------------

  lemma {:induction false} ConcatAppend(parts: seq<Bytes>, part: Bytes)
    ensures Concat(parts + [part]) == Concat(parts) + part
    decreases |parts|
  {
    if parts == [] {
      assert parts + [part] == [part] && Concat([]) == [] && [part][1..] == [];
      assert Concat([part]) == part + Concat([part][1..]);
    } else {
      assert (parts + [part])[1..] == parts[1..] + [part];
      ConcatAppend(parts[1..], part);
    }
  }

  /** The state once unit `n` has arrived: it is held, or with the marker all held units have left. */
  ghost predicate Arrived(before: State, n: Nalu, last: bool, ts: u32, turn: Turn) {
    && turn.errors == 0
    && (if last then turn.out == [AccessUnit(JoinAnnexB(before.nalus + [n]), ts, before.sawIdr || IsIdr(n))]
                     && turn.st.nalus == [] && !turn.st.sawIdr
        else turn.out == [] && turn.st.nalus == before.nalus + [n] && turn.st.sawIdr == (before.sawIdr || IsIdr(n)))
  }

  function SizeAt(n: Nalu, mtu: nat, offset: nat): (size: nat)
    requires mtu >= MIN_MTU && offset < |n| - 1
    ensures 0 < size && 1 + offset + size <= |n|
  {
    if mtu - 2 <= |n| - 1 - offset then mtu - 2 else |n| - 1 - offset
  }

  lemma FirstFragment(n: Nalu, mtu: nat, offset: nat, last: bool)
    requires mtu >= MIN_MTU && offset < |n| - 1
    ensures var size := SizeAt(n, mtu, offset);
            var end := 1 + offset + size == |n|;
            var pieces := Fragments(n, mtu, offset, last);
            && pieces != [] && pieces[1..] == Fragments(n, mtu, offset + size, last)
            && pieces[0].marker == (end && last)
            && |pieces[0].payload| >= 2 && pieces[0].payload[2..] == n[1 + offset..1 + offset + size]
            && pieces[0].payload[0] == RefBits(n[0]) + FU_A
            && pieces[0].payload[1] == FuHeader(offset == 0, end, TypeOf(n[0]))
            && (end ==> pieces[1..] == [])
  {
    hide RefBits, TypeOf, FuHeader;
    var size := SizeAt(n, mtu, offset);
    var head: Bytes := [RefBits(n[0]) + FU_A, FuHeader(offset == 0, 1 + offset + size == |n|, TypeOf(n[0]))];
    assert (head + n[1 + offset..1 + offset + size])[2..] == n[1 + offset..1 + offset + size];
    if 1 + offset + size == |n| {
      assert Fragments(n, mtu, offset + size, last) == [];
    }
  }

  /** What is held grows by the fragment's bytes; the last fragment completes the unit. */
  lemma FragmentTaken(st: State, n: Nalu, p: Bytes, offset: nat, size: nat)
    requires Proper(n) && 1 + offset + size <= |n| && |p| >= 2 && p[2..] == n[1 + offset..1 + offset + size]
    requires p[0] == RefBits(n[0]) + FU_A && p[1] == FuHeader(offset == 0, 1 + offset + size == |n|, TypeOf(n[0]))
    requires offset > 0 ==> st.fragments != [] && Concat(st.fragments) == n[..1 + offset]
    ensures TypeOf(p[0]) == FU_A && (p[1] < 0x80 ==> st.fragments != [])
    ensures var next := Fragment(st, p);
            if 1 + offset + size == |n| then next == AddNalu(st.(fragments := []), n)
            else next == st.(fragments := next.fragments)
                 && next.fragments != [] && Concat(next.fragments) == n[..1 + offset + size]
  {
    hide RefBits, TypeOf, FuHeader, IsIdr;
    FuBits(offset == 0, 1 + offset + size == |n|, TypeOf(n[0]));
    RefAndType(n[0]);
    var started: seq<Bytes> := if offset == 0 then [[n[0]]] else st.fragments;
    if offset == 0 {
      ConcatAppend([], [n[0]]);
      assert [] + [[n[0]]] == [[n[0]]] && [] + [n[0]] == [n[0]] == n[..1];
    }
    ConcatAppend(started, p[2..]);
    assert n[..1 + offset] + n[1 + offset..1 + offset + size] == n[..1 + offset + size];
    assert n[..|n|] == n;
  }

  lemma {:induction false} FragmentsArrive(st: State, n: Nalu, mtu: nat, offset: nat, last: bool, ts: u32)
    requires Proper(n) && |n| > mtu >= MIN_MTU && offset < |n| - 1
    requires offset > 0 ==> st.fragments != [] && Concat(st.fragments) == n[..1 + offset]
    ensures Arrived(st, n, last, ts, ReceivePieces(st, Fragments(n, mtu, offset, last), ts))
    decreases |n| - offset
  {
    hide RefBits, TypeOf, FuHeader, JoinAnnexB, Fragments, Fragment, Concat, SizeAt, Proper, IsIdr;
    var size := SizeAt(n, mtu, offset);
    var pieces := Fragments(n, mtu, offset, last);
    FirstFragment(n, mtu, offset, last);
    FragmentTaken(st, n, pieces[0].payload, offset, size);
    var first := Receive(st, pieces[0].marker, ts, pieces[0].payload);
    assert first == Emit(Turn(Fragment(st, pieces[0].payload), [], 0), pieces[0].marker, ts);
    if 1 + offset + size == |n| {
      assert ReceivePieces(first.st, pieces[1..], ts) == Turn(first.st, [], 0);
      assert first.out + [] == first.out;
    } else {
      FragmentsArrive(first.st, n, mtu, offset + size, last, ts);
      var rest := ReceivePieces(first.st, pieces[1..], ts);
      assert [] + rest.out == rest.out;
    }
  }

  lemma UnitArrives(st: State, n: Nalu, mtu: nat, last: bool, ts: u32)
    requires Proper(n) && mtu >= MIN_MTU
    ensures Arrived(st, n, last, ts, ReceivePieces(st, PiecesOf(n, mtu, last), ts))
  {
    hide JoinAnnexB, Fragments, TypeOf;
    if |n| <= mtu {
      var pieces := PiecesOf(n, mtu, last);
      assert pieces[1..] == [];
      var first := Receive(st, pieces[0].marker, ts, pieces[0].payload);
      assert ReceivePieces(first.st, pieces[1..], ts) == Turn(first.st, [], 0);
      assert first.out + [] == first.out;
    } else {
      FragmentsArrive(st, n, mtu, 0, last, ts);
    }
  }

  predicate AnyIdr(nalus: seq<Nalu>) {
    exists i :: 0 <= i < |nalus| && IsIdr(nalus[i])
  }

  lemma {:induction false} PiecesJoin(st: State, a: seq<Piece>, b: seq<Piece>, ts: u32)
    ensures ReceivePieces(st, a + b, ts)
         == Then(ReceivePieces(st, a, ts), ReceivePieces(ReceivePieces(st, a, ts).st, b, ts))
    decreases |a|
  {
    hide Receive;
    if a == [] {
      assert a + b == b;
      assert forall x: seq<AccessUnit> :: [] + x == x;
    } else {
      var first := Receive(st, a[0].marker, ts, a[0].payload);
      assert (a + b)[1..] == a[1..] + b;
      PiecesJoin(first.st, a[1..], b, ts);
      var more := ReceivePieces(first.st, a[1..], ts);
      var rest := ReceivePieces(more.st, b, ts);
      assert first.out + (more.out + rest.out) == (first.out + more.out) + rest.out;
    }
  }

  lemma {:induction false} UnitsArrive(st: State, nalus: seq<Nalu>, mtu: nat, ts: u32)
    requires nalus != [] && AllProper(nalus) && mtu >= MIN_MTU
    ensures var turn := ReceivePieces(st, Pieces(nalus, mtu), ts);
            && turn.errors == 0 && turn.st.nalus == [] && !turn.st.sawIdr
            && turn.out == [AccessUnit(JoinAnnexB(st.nalus + nalus), ts, st.sawIdr || AnyIdr(nalus))]
    decreases |nalus|
  {
    hide Receive, JoinAnnexB, IsIdr, PiecesOf, Proper;
    var n, rest, last := nalus[0], nalus[1..], |nalus| == 1;
    UnitArrives(st, n, mtu, last, ts);
    PiecesJoin(st, PiecesOf(n, mtu, last), Pieces(rest, mtu), ts);
    var first := ReceivePieces(st, PiecesOf(n, mtu, last), ts);
    assert nalus == [n] + rest;
    AnyIdrSplit(nalus);
    if last {
      assert rest == [] && nalus == [n];
      assert first.out + [] == first.out;
    } else {
      UnitsArrive(first.st, rest, mtu, ts);
      assert (st.nalus + [n]) + rest == st.nalus + nalus;
    }
  }

  /** An access unit sent as packets arrives as one access unit of the same units, joined with 4-byte codes,
      whatever fragments an earlier loss left behind. */
  lemma NalusArrive(st: State, to: Sender, nalus: seq<Nalu>, mtu: nat, num: u16, ts: u32)
    requires nalus != [] && AllProper(nalus) && mtu >= MIN_MTU && st.nalus == [] && !st.sawIdr
    ensures var turn := ReceiveAll(st, Packets(to, Pieces(nalus, mtu), num, ts));
            && turn.errors == 0 && turn.st.nalus == [] && !turn.st.sawIdr
            && turn.out == [AccessUnit(JoinAnnexB(nalus), ts, AnyIdr(nalus))]
  {
    WireCarries(st, to, Pieces(nalus, mtu), num, ts);
    UnitsArrive(st, nalus, mtu, ts);
    assert [] + nalus == nalus;
  }

  /** An Annex-B access unit handed to the packetizer. */
  datatype Frame = Frame(units: seq<Unit>, ts: u32)

  ghost predicate Sendable(f: Frame) {
    f.units != [] && AllProper(Nalus(f.units)) && (forall i :: 0 <= i < |f.units| ==> CodeFree(f.units[i].nalu))
  }

  function FramePieces(f: Frame, mtu: nat): seq<Piece>
    requires mtu >= MIN_MTU
  {
    Pieces(SplitNalus(Stream(f.units)), mtu)
  }

  /** What the receiver makes of a frame. */
  function Received(f: Frame): AccessUnit {
    AccessUnit(JoinAnnexB(Found(f.units)), f.ts, AnyIdr(Nalus(f.units)))
  }

  lemma ProperPlain(units: seq<Unit>)
    requires AllProper(Nalus(units)) && forall i :: 0 <= i < |units| ==> CodeFree(units[i].nalu)
    ensures AllPlain(Nalus(units))
  {
    hide CodeFree;
    forall i | 0 <= i < |units| ensures Plain(Nalus(units)[i]) {
      assert Proper(Nalus(units)[i]) && Nalus(units)[i] == units[i].nalu;
      assert TypeOf(units[i].nalu[0]) >= 1;
    }
  }

  lemma {:induction false} FoundProper(units: seq<Unit>, i: nat)
    requires AllPlain(Nalus(units)) && AllProper(Nalus(units)) && i < |units|
    ensures Proper(Found(units)[i]) && (IsIdr(Found(units)[i]) <==> IsIdr(Nalus(units)[i]))
    decreases |units|
  {
    hide Proper, Plain;
    var rest := units[1..];
    assert forall k :: 0 <= k < |rest| ==> Nalus(rest)[k] == Nalus(units)[k + 1];
    if i == 0 {
      var n, next := units[0].nalu, CodeLength(rest);
      assert n == Nalus(units)[0];
      KeptPart(n, next);
      assert Kept(n, next)[0] == n[0];
      assert Proper(n) ==> Proper(Kept(n, next)) by { SameHead(n, Kept(n, next)); }
    } else {
      FoundProper(rest, i - 1);
    }
  }

  lemma SameHead(n: Nalu, k: Nalu)
    requires n != [] && k != [] && n[0] == k[0]
    ensures Proper(n) <==> Proper(k)
  {
  }

  lemma FrameArrives(st: State, to: Sender, f: Frame, mtu: nat, num: u16)
    requires Sendable(f) && mtu >= MIN_MTU && st.nalus == [] && !st.sawIdr
    ensures var turn := ReceiveAll(st, Packets(to, FramePieces(f, mtu), num, f.ts));
            turn.errors == 0 && turn.st.nalus == [] && !turn.st.sawIdr && turn.out == [Received(f)]
  {
    hide Proper, Plain, ReceiveAll, Found, JoinAnnexB, IsIdr;
    ProperPlain(f.units);
    SplitFound(f.units);
    var found, sent := Found(f.units), Nalus(f.units);
    forall i | 0 <= i < |found| ensures Proper(found[i]) && (IsIdr(found[i]) <==> IsIdr(sent[i])) {
      FoundProper(f.units, i);
    }
    NalusArrive(st, to, found, mtu, num, f.ts);
    assert AnyIdr(found) <==> AnyIdr(sent);
  }

  // ------------------------------------------------------------------
  // Whole runs
  // ------------------------------------------------------------------

  function SendAll(to: Sender, frames: seq<Frame>, mtu: nat, num: u16): seq<Bytes>
    requires mtu >= MIN_MTU
  {
    if frames == [] then []
    else
      var pieces := FramePieces(frames[0], mtu);
      Packets(to, pieces, num, frames[0].ts) + SendAll(to, frames[1..], mtu, Wrap(num + |pieces|))
  }

  function ReceivedAll(frames: seq<Frame>): (a: seq<AccessUnit>)
    ensures |a| == |frames|
  {
    seq(|frames|, i requires 0 <= i < |frames| => Received(frames[i]))
  }

  lemma {:induction false} ReceiveJoin(st: State, a: seq<Bytes>, b: seq<Bytes>)
    ensures ReceiveAll(st, a + b) == Then(ReceiveAll(st, a), ReceiveAll(ReceiveAll(st, a).st, b))
    decreases |a|
  {
    hide ReceiveOne;
    if a == [] {
      assert a + b == b;
      assert forall x: seq<AccessUnit> :: [] + x == x;
    } else {
      var first := ReceiveOne(st, a[0]);
      assert (a + b)[1..] == a[1..] + b;
      ReceiveJoin(first.st, a[1..], b);
      var more := ReceiveAll(first.st, a[1..]);
      var rest := ReceiveAll(more.st, b);
      assert first.out + (more.out + rest.out) == (first.out + more.out) + rest.out;
    }
  }

  /** Any stream of access units comes out of the receiver unit by unit. */
  lemma {:induction false} RunArrives(st: State, to: Sender, frames: seq<Frame>, mtu: nat, num: u16)
    requires (forall i :: 0 <= i < |frames| ==> Sendable(frames[i])) && mtu >= MIN_MTU
    requires st.nalus == [] && !st.sawIdr
    ensures var turn := ReceiveAll(st, SendAll(to, frames, mtu, num));
            && turn.errors == 0 && turn.st.nalus == [] && !turn.st.sawIdr
            && turn.out == ReceivedAll(frames)
    decreases |frames|
  {
    hide ReceiveAll, Received, Sendable, FramePieces;
    if frames == [] {
      assert SendAll(to, frames, mtu, num) == [];
      NothingReceived(st);
    } else {
      var f, rest := frames[0], frames[1..];
      var pieces := FramePieces(f, mtu);
      var sent := Packets(to, pieces, num, f.ts);
      FrameArrives(st, to, f, mtu, num);
      ReceiveJoin(st, sent, SendAll(to, rest, mtu, Wrap(num + |pieces|)));
      RunArrives(ReceiveAll(st, sent).st, to, rest, mtu, Wrap(num + |pieces|));
      assert ReceivedAll(frames) == [Received(f)] + ReceivedAll(rest);
    }
  }

  lemma NothingReceived(st: State)
    ensures ReceiveAll(st, []) == Turn(st, [], 0)
  {
  }

  /** The receiver has the very units that were sent exactly when no unit ending in a zero byte stood before a
      3-byte start code. */
  lemma ReceivedExact(f: Frame)
    requires Sendable(f)
    ensures Found(f.units) == Nalus(f.units) <==> ZerosSafe(f.units)
    ensures ZerosSafe(f.units) ==> Received(f).data == JoinAnnexB(Nalus(f.units))
  {
    ProperPlain(f.units);
    FoundExact(f.units);
  }

  // ------------------------------------------------------------------
  // What else may arrive
  // ------------------------------------------------------------------

  /** A unit whose first fragments are lost is dropped whole: every one of the others is reported, and nothing is
      kept or handed on, not even at the marker. */
  lemma {:induction false} StartLost(st: State, n: Nalu, mtu: nat, offset: nat, last: bool, ts: u32)
    requires Proper(n) && mtu >= MIN_MTU && 0 < offset && st.fragments == []
    ensures var pieces := Fragments(n, mtu, offset, last);
            ReceivePieces(st, pieces, ts) == Turn(st, [], |pieces|)
    decreases |n| - offset
  {
    hide RefBits, TypeOf, FuHeader, Fragments, SizeAt;
    if offset < |n| - 1 {
      var size := SizeAt(n, mtu, offset);
      var pieces := Fragments(n, mtu, offset, last);
      FirstFragment(n, mtu, offset, last);
      RefAndType(n[0]);
      FuBits(false, 1 + offset + size == |n|, TypeOf(n[0]));
      StartLost(st, n, mtu, offset + size, last, ts);
    } else {
      PastEnd(n, mtu, offset, last);
    }
  }

  lemma PastEnd(n: Nalu, mtu: nat, offset: nat, last: bool)
    requires |n| > 0 && mtu >= MIN_MTU && offset >= |n| - 1
    ensures Fragments(n, mtu, offset, last) == []
  {
  }

  /** The fragments of a unit that any sender cuts into these parts, empty ones among them, with the reserved bits
      as they come. */
  ghost function Cut(top: bool, reserved: bool, ref: nat, kind: nat, parts: seq<Bytes>, first: bool, marker: bool):
      seq<Piece>
    requires ref < 4 && kind < 0x20
  {
    if parts == [] then []
    else
      var b0: byte := (if top then 0x80 else 0) + ref * 0x20 + 28;
      var b1: byte := (if first then 0x80 else 0) + (if |parts| == 1 then 0x40 else 0)
                      + (if reserved then 0x20 else 0) + kind;
      [Piece([b0, b1] + parts[0], marker && |parts| == 1)]
      + Cut(top, reserved, ref, kind, parts[1..], false, marker)
  }

  lemma CutBits(top: bool, reserved: bool, ref: nat, kind: nat, first: bool, end: bool)
    requires ref < 4 && kind < 0x20
    ensures var b0: byte := (if top then 0x80 else 0) + ref * 0x20 + 28;
            var b1: byte := (if first then 0x80 else 0) + (if end then 0x40 else 0)
                            + (if reserved then 0x20 else 0) + kind;
            && TypeOf(b0) == 28 && RefBits(b0) == ref * 0x20 && TypeOf(b1) == kind
            && (b1 >= 0x80 <==> first) && (b1 / 0x40 % 2 == 1 <==> end)
  {
  }

  lemma FirstCut(top: bool, reserved: bool, ref: nat, kind: nat, parts: seq<Bytes>, first: bool, marker: bool)
    requires ref < 4 && kind < 0x20 && parts != []
    ensures var pieces := Cut(top, reserved, ref, kind, parts, first, marker);
            && pieces != [] && pieces[0].marker == (marker && |parts| == 1) && |pieces[0].payload| >= 2
            && pieces[1..] == Cut(top, reserved, ref, kind, parts[1..], false, marker)
            && (|parts| == 1 ==> pieces[1..] == [])
            && var p := pieces[0].payload;
               && TypeOf(p[0]) == 28 && RefBits(p[0]) == ref * 0x20 && TypeOf(p[1]) == kind && p[2..] == parts[0]
               && (p[1] >= 0x80 <==> first) && (p[1] / 0x40 % 2 == 1 <==> |parts| == 1)
  {
    CutBits(top, reserved, ref, kind, first, |parts| == 1);
    hide RefBits, TypeOf;
  }

  /** What one fragment adds to what was held; the last one completes the unit. */
  lemma CutTaken(st: State, head: byte, p: Bytes, marker: bool, ts: u32)
    requires |p| >= 2 && TypeOf(p[0]) == 28 && RefBits(p[0]) + TypeOf(p[1]) == head
    requires p[1] < 0x80 ==> st.fragments != []
    ensures var held := (if p[1] >= 0x80 then [head] else Concat(st.fragments)) + p[2..];
            var turn := Receive(st, marker, ts, p);
            if p[1] / 0x40 % 2 == 1 then Arrived(st, held, marker, ts, turn) && turn.st.fragments == []
            else !marker ==> turn == Turn(st.(fragments := turn.st.fragments), [], 0)
                             && turn.st.fragments != [] && Concat(turn.st.fragments) == held
  {
    hide RefBits, TypeOf, JoinAnnexB, IsIdr;
    var started: seq<Bytes> := if p[1] >= 0x80 then [[head]] else st.fragments;
    if p[1] >= 0x80 {
      ConcatAppend([], [head]);
      assert [] + [[head]] == [[head]] && [] + [head] == [head];
    }
    ConcatAppend(started, p[2..]);
    hide Concat;
  }

  /** However a unit is cut, and whatever fragments were held before, its fragments give the unit. */
  lemma {:induction false} CutAnywhere(st: State, top: bool, reserved: bool, ref: nat, kind: nat, parts: seq<Bytes>,
                                       first: bool, marker: bool, ts: u32)
    requires ref < 4 && kind < 0x20 && parts != [] && (!first ==> st.fragments != [])
    ensures var before := if first then [ref * 0x20 + kind] else Concat(st.fragments);
            var turn := ReceivePieces(st, Cut(top, reserved, ref, kind, parts, first, marker), ts);
            Arrived(st, before + Concat(parts), marker, ts, turn) && turn.st.fragments == []
    decreases |parts|
  {
    hide RefBits, TypeOf, JoinAnnexB, IsIdr, Receive, Cut;
    FirstCut(top, reserved, ref, kind, parts, first, marker);
    var pieces := Cut(top, reserved, ref, kind, parts, first, marker);
    CutTaken(st, ref * 0x20 + kind, pieces[0].payload, pieces[0].marker, ts);
    var before := if first then [ref * 0x20 + kind] else Concat(st.fragments);
    var next := Receive(st, pieces[0].marker, ts, pieces[0].payload);
    if |parts| == 1 {
      assert Concat(parts) == parts[0] + Concat(parts[1..]) == parts[0];
      assert ReceivePieces(next.st, pieces[1..], ts) == Turn(next.st, [], 0);
      assert next.out + [] == next.out;
    } else {
      CutAnywhere(next.st, top, reserved, ref, kind, parts[1..], false, marker, ts);
      var rest := ReceivePieces(next.st, pieces[1..], ts);
      assert (before + parts[0]) + Concat(parts[1..]) == before + Concat(parts);
      assert [] + rest.out == rest.out;
    }
  }

  /** Types 0, 25 to 27 and 29 to 31, and a fragment without its second byte, are reported and change nothing. */
  lemma Unsupported(st: State, marker: bool, ts: u32, p: Bytes)
    requires p != []
    requires var t := p[0] as int % 32; t == 0 || 25 <= t <= 27 || t >= 29 || (t == 28 && |p| == 1)
    ensures Receive(st, marker, ts, p) == Turn(st, [], 1)
  {
  }

  /** An empty payload changes nothing and reports nothing, nor does what is no RTP packet. */
  lemma NothingHeard(st: State, marker: bool, ts: u32, packet: Bytes)
    ensures Receive(st, marker, ts, []) == Turn(st, [], 0)
    ensures |packet| < 12 || packet[0] as int / 0x40 != 2 ==> ReceiveOne(st, packet) == Turn(st, [], 0)
  {
    Unparseable(packet);
  }

  /** The units of an aggregation packet as they lie in it, empty ones among them. */
  ghost function Laid(units: seq<Bytes>): Bytes
    requires forall i :: 0 <= i < |units| ==> |units[i]| < 0x1_0000
  {
    if units == [] then [] else PutU16(|units[0]|) + (units[0] + Laid(units[1..]))
  }

  ghost function NotEmpty(units: seq<Bytes>): seq<Nalu> {
    if units == [] then []
    else NotEmpty(units[..|units| - 1]) + if units[|units| - 1] == [] then [] else [units[|units| - 1]]
  }

  lemma {:induction false} NotEmptyFirst(units: seq<Bytes>)
    requires units != []
    ensures NotEmpty(units) == (if units[0] == [] then [] else [units[0]]) + NotEmpty(units[1..])
    decreases |units|
  {
    var init := units[..|units| - 1];
    if |units| == 1 {
      assert init == [] && units[1..] == [];
    } else {
      NotEmptyFirst(init);
      var rest := units[1..];
      assert init[1..] == rest[..|rest| - 1] && rest[|rest| - 1] == units[|units| - 1];
    }
  }

  /** After the units at most one byte is left, or a length that claims more than there is. */
  ghost predicate EndsBundle(tail: Bytes) {
    |tail| >= 2 ==> 0 < GetU16(tail, 0) && GetU16(tail, 0) > |tail| - 2
  }

  /** An aggregation packet of any sender: its units arrive in order, empty ones are passed over, and a length
      claiming more than there is is reported. */
  lemma {:induction false} AggregateRead(st: State, p: Bytes, off: nat, units: seq<Bytes>, tail: Bytes)
    requires forall i :: 0 <= i < |units| ==> |units[i]| < 0x1_0000
    requires EndsBundle(tail) && off <= |p| && p[off..] == Laid(units) + tail
    ensures Aggregated(st, p, off) == Turn(AddAll(st, NotEmpty(units)), [], if |tail| >= 2 then 1 else 0)
    decreases |units|
  {
    hide PutU16, GetU16, IsIdr;
    if units == [] {
      assert p[off..] == tail && |p| - off == |tail|;
      if |tail| >= 2 {
        SameField(p, off, tail);
      }
    } else {
      var n, rest := units[0], units[1..];
      var head := PutU16(|n|);
      NotEmptyFirst(units);
      assert Laid(units) + tail == head + (n + (Laid(rest) + tail));
      assert p[off..][..2] == head && p[off..][2..] == n + (Laid(rest) + tail);
      assert p[off..off + 2] == head && p[off + 2..] == n + (Laid(rest) + tail);
      assert p[off + 2..][..|n|] == n && p[off + 2..][|n|..] == Laid(rest) + tail;
      assert p[off + 2..off + 2 + |n|] == n && p[off + 2 + |n|..] == Laid(rest) + tail;
      GetPut16(p, off, |n|);
      if n == [] {
        AggregateRead(st, p, off + 2, rest, tail);
        assert [] + NotEmpty(rest) == NotEmpty(rest);
      } else {
        AggregateRead(AddNalu(st, n), p, off + 2 + |n|, rest, tail);
        assert ([n] + NotEmpty(rest))[1..] == NotEmpty(rest);
      }
    }
  }

  lemma SameField(p: Bytes, off: nat, tail: Bytes)
    requires off <= |p| && p[off..] == tail && |tail| >= 2
    ensures GetU16(p, off) == GetU16(tail, 0)
  {
    assert p[off] == tail[0] && p[off + 1] == tail[1];
  }

  /** Whether a unit is a keyframe's, in its first byte. */
  lemma KeyIs(nalus: seq<Nalu>)
    ensures AnyIdr(nalus) <==> exists n :: n in nalus && n != [] && n[0] as int % 32 == 5
  {
    if AnyIdr(nalus) {
      var i :| 0 <= i < |nalus| && IsIdr(nalus[i]);
      assert nalus[i] in nalus;
    }
    if n :| n in nalus && n != [] && n[0] as int % 32 == 5 {
      var i :| 0 <= i < |nalus| && nalus[i] == n;
      assert IsIdr(nalus[i]);
    }
  }

  /** A unit longer than the MTU leaves in as few fragments as its bytes after the header need. */
  lemma {:induction false} FewestFragments(n: Nalu, mtu: nat, offset: nat, last: bool)
    requires mtu >= MIN_MTU && offset < |n| - 1
    ensures var count := |Fragments(n, mtu, offset, last)|;
            (count - 1) * (mtu - 2) < |n| - 1 - offset <= count * (mtu - 2)
    decreases |n| - offset
  {
    hide Fragments;
    var left, m := |n| - 1 - offset, mtu - 2;
    FirstFragment(n, mtu, offset, last);
    if left > m {
      var rest := Fragments(n, mtu, offset + m, last);
      PastEndOnly(n, mtu, offset + m, last);
      FewestFragments(n, mtu, offset + m, last);
      assert |Fragments(n, mtu, offset, last)| == |rest| + 1;
      assert |rest| * m == (|rest| - 1) * m + m && (|rest| + 1) * m == |rest| * m + m;
    } else {
      assert |Fragments(n, mtu, offset, last)| == 1;
    }
  }

  /** All of them but the last are full. */
  lemma {:induction false} FullFragments(n: Nalu, mtu: nat, offset: nat, last: bool, i: nat)
    requires mtu >= MIN_MTU && offset < |n| - 1 && i < |Fragments(n, mtu, offset, last)| - 1
    ensures |Fragments(n, mtu, offset, last)[i].payload| == mtu
    decreases |n| - offset
  {
    hide RefBits, TypeOf, FuHeader;
    PastEnd(n, mtu, |n| - 1, last);
    if mtu - 2 < |n| - 1 - offset && i > 0 {
      FullFragments(n, mtu, offset + mtu - 2, last, i - 1);
    }
  }

  lemma PastEndOnly(n: Nalu, mtu: nat, offset: nat, last: bool)
    requires |n| > 0 && mtu >= MIN_MTU && offset < |n| - 1
    ensures Fragments(n, mtu, offset, last) != []
  {
  }

  lemma SmallWhole(n: Nalu, mtu: nat, last: bool)
    requires mtu >= MIN_MTU
    ensures |n| <= mtu ==> PiecesOf(n, mtu, last) == [Piece(n, last)]
    ensures |n| > mtu ==> PiecesOf(n, mtu, last) == Fragments(n, mtu, 0, last)
  {
  }

  // ------------------------------------------------------------------
  // The two objects
  // ------------------------------------------------------------------

  class H264Packetizer {
    const mtu: nat
    const to: Sender
    var num: u16

    ghost predicate Valid()
      reads this
    {
      mtu >= MIN_MTU
    }

    constructor (to: Sender, mtu: nat, num: u16)
      requires MIN_MTU <= mtu <= 0xFFFF
      ensures Valid() && this.to == to && this.mtu == mtu && this.num == num
    {
      this.to, this.mtu, this.num := to, mtu, num;
    }

    method MakePacket(payload: Bytes, ts: u32, marker: bool) returns (buf: Bytes)
      modifies this
      ensures num == Next(old(num))
      ensures [buf] == Packets(to, [Piece(payload, marker)], old(num), ts)
    {
      buf := Rtp.MakePacket(to.payloadType, num, ts, to.ssrc, marker, payload);
      assert [Piece(payload, marker)][1..] == [];
      num := if num == 0xFFFF then 0 else num + 1;
    }

    /** Annex-B or length-prefixed data, split here. */
    method Packetize(data: Bytes, ts: u32) returns (out: seq<Bytes>)
      requires Valid()
      modifies this
      ensures Valid() && out == Packets(to, Pieces(SplitNalus(data), mtu), old(num), ts)
      ensures num == Wrap(old(num) + |out|)
    {
      var nalus := Split(data);
      out := PacketizeNalus(nalus, ts);
    }

    method PacketizeNalus(nalus: seq<Nalu>, ts: u32) returns (out: seq<Bytes>)
      requires Valid()
      modifies this
      ensures Valid() && out == Packets(to, Pieces(nalus, mtu), old(num), ts)
      ensures num == Wrap(old(num) + |out|)
    {
      hide PiecesOf, Packets;
      out := [];
      ghost var sent: seq<Piece> := [];
      assert nalus[0..] == nalus;
      for i := 0 to |nalus|
        invariant sent + Pieces(nalus[i..], mtu) == Pieces(nalus, mtu)
        invariant out == Packets(to, sent, old(num), ts) && num == Wrap(old(num) + |sent|)
      {
        var n, last := nalus[i], i == |nalus| - 1;
        assert nalus[i..][1..] == nalus[i + 1..];
        ghost var pieces, rest := PiecesOf(n, mtu, last), Pieces(nalus[i + 1..], mtu);
        assert sent + (pieces + rest) == (sent + pieces) + rest;
        var more := PacketizeOne(n, ts, last);
        PacketsJoin(to, sent, pieces, old(num), ts);
        WrapAdd(old(num) + |sent|, |pieces|);
        out := out + more;
        sent := sent + pieces;
      }
      assert nalus[|nalus|..] == [];
      assert sent + [] == sent;
    }

    method PacketizeOne(n: Nalu, ts: u32, last: bool) returns (out: seq<Bytes>)
      requires Valid()
      modifies this
      ensures Valid() && out == Packets(to, PiecesOf(n, mtu, last), old(num), ts)
      ensures num == Wrap(old(num) + |PiecesOf(n, mtu, last)|)
    {
      if |n| <= mtu {
        WrapForward(num, 0);
        var buf := MakePacket(n, ts, last);
        out := [buf];
      } else {
        out := FragmentFUA(n, ts, last);
      }
    }

    method FragmentFUA(n: Nalu, ts: u32, last: bool) returns (out: seq<Bytes>)
      requires Valid() && |n| > mtu
      modifies this
      ensures Valid() && out == Packets(to, Fragments(n, mtu, 0, last), old(num), ts)
      ensures num == Wrap(old(num) + |Fragments(n, mtu, 0, last)|)
    {
      hide RefBits, TypeOf, FuHeader, Fragments, Packets, CeilDiv, Takes;
      var maxPayload, dataLen := mtu - 2, |n| - 1;
      var offset := 0;
      var fragCount := CeilDiv(dataLen, maxPayload);
      out := [];
      ghost var sent: seq<Piece> := [];
      for i := 0 to fragCount
        invariant 0 <= offset <= dataLen && Takes(dataLen - offset, maxPayload, fragCount - i)
        invariant (i == 0 <==> offset == 0)
        invariant sent + Fragments(n, mtu, offset, last) == Fragments(n, mtu, 0, last)
        invariant out == Packets(to, sent, old(num), ts) && num == Wrap(old(num) + |sent|)
      {
        TakesOne(dataLen - offset, maxPayload, fragCount - i);
        var start, end := i == 0, i == fragCount - 1;
        var size := if maxPayload <= dataLen - offset then maxPayload else dataLen - offset;
        ghost var pieces := Fragments(n, mtu, offset, last);
        FirstFragment(n, mtu, offset, last);
        var prefix: Bytes := [RefBits(n[0]) + FU_A, FuHeader(start, end, TypeOf(n[0]))];
        var payload := prefix + n[1 + offset..1 + offset + size];
        assert payload == pieces[0].payload;
        var buf := SendPiece(payload, ts, end && last, sent, old(num));
        ghost var piece := Piece(payload, end && last);
        assert pieces == [piece] + pieces[1..];
        assert sent + ([piece] + pieces[1..]) == (sent + [piece]) + pieces[1..];
        out := out + [buf];
        sent := sent + [piece];
        offset := offset + size;
      }
      TakesNone(dataLen - offset, maxPayload);
      PastEnd(n, mtu, dataLen, last);
      assert sent + [] == sent;
    }

    /** One more packet after those sent since number `from`. */
    method SendPiece(payload: Bytes, ts: u32, marker: bool, ghost sent: seq<Piece>, ghost from: u16)
      returns (buf: Bytes)
      requires num == Wrap(from + |sent|)
      modifies this
      ensures Packets(to, sent, from, ts) + [buf] == Packets(to, sent + [Piece(payload, marker)], from, ts)
      ensures num == Wrap(from + |sent| + 1)
    {
      hide Packets;
      PacketsJoin(to, sent, [Piece(payload, marker)], from, ts);
      WrapForward(from + |sent|, 0);
      buf := MakePacket(payload, ts, marker);
    }
  }

  /** `k` fragments of at most `max` bytes are just enough for `left` bytes. */
  ghost predicate Takes(left: nat, max: nat, k: nat) {
    if k == 0 then left == 0 else (k - 1) * max < left <= k * max
  }

  lemma TakesOne(left: nat, max: nat, k: nat)
    requires Takes(left, max, k) && k > 0 && max > 0
    ensures left > 0 && (k == 1 <==> left <= max)
    ensures Takes(left - if max <= left then max else left, max, k - 1)
  {
    assert k * max == (k - 1) * max + max;
    if k > 1 {
      assert (k - 1) * max == (k - 2) * max + max;
    }
  }

  lemma TakesNone(left: nat, max: nat)
    requires Takes(left, max, 0)
    ensures left == 0
  {
  }

  /** `Math.ceil(n / max)`. */
  function CeilDiv(n: nat, max: nat): (c: nat)
    requires max > 0 && n > 0
    ensures Takes(n, max, c)
  {
    (n + max - 1) / max
  }

  lemma {:induction false} PacketsJoin(to: Sender, a: seq<Piece>, b: seq<Piece>, num: u16, ts: u32)
    ensures Packets(to, a + b, num, ts) == Packets(to, a, num, ts) + Packets(to, b, Wrap(num + |a|), ts)
    decreases |a|
  {
    hide MakePacket;
    if a == [] {
      assert a + b == b;
    } else {
      assert (a + b)[1..] == a[1..] + b;
      WrapForward(num, 0);
      WrapAdd(num + 1, |a| - 1);
      PacketsJoin(to, a[1..], b, Next(num), ts);
    }
  }

  class H264Depacketizer {
    var nalus: seq<Nalu>
    var fuFragments: seq<Bytes>
    var fuHeader: byte
    var sawIdr: bool

    function Abs(): State
      reads this
    {
      State(nalus, fuFragments, sawIdr)
    }

    constructor ()
      ensures Abs() == State([], [], false)
    {
      nalus, fuFragments, fuHeader, sawIdr := [], [], 0, false;
    }

    /** `out` is what the output callback gets, `errors` how often the error callback is called. */
    method Depacketize(marker: bool, ts: u32, payload: Bytes) returns (out: seq<AccessUnit>, errors: nat)
      modifies this
      ensures Turn(Abs(), out, errors) == Receive(old(Abs()), marker, ts, payload)
    {
      hide Aggregated, JoinAnnexB, IsIdr;
      out, errors := [], 0;
      if |payload| < 1 {
        return;
      }
      var kind := TypeOf(payload[0]);
      if 1 <= kind <= 23 {
        nalus := nalus + [payload];
        if kind == 5 {
          sawIdr := true;
        }
        assert IsIdr(payload) <==> kind == 5 by { IdrIs(payload); }
      } else if kind == STAP_A {
        errors := Walk(payload);
      } else if kind == FU_A {
        if |payload| < 2 {
          return [], 1;
        }
        if payload[1] < 0x80 && fuFragments == [] {
          return [], 1;
        }
        TakeFragment(payload);
      } else {
        return [], 1;
      }
      if marker && |nalus| > 0 {
        var accessUnit := Join(nalus);
        var isKey := sawIdr;
        nalus := [];
        sawIdr := false;
        out := [AccessUnit(accessUnit, ts, isKey)];
      }
    }

    method TakeFragment(payload: Bytes)
      requires |payload| >= 2
      modifies this
      ensures Abs() == Fragment(old(Abs()), payload)
    {
      hide IsIdr;
      if payload[1] >= 0x80 {
        fuHeader := RefBits(payload[0]) + TypeOf(payload[1]);
        fuFragments := [[fuHeader]];
      }
      fuFragments := fuFragments + [payload[2..]];
      if payload[1] / 0x40 % 2 == 1 {
        var fullNalu := ConcatAll(fuFragments);
        fuFragments := [];
        nalus := nalus + [fullNalu];
        if IsIdr(fullNalu) {
          sawIdr := true;
        }
      }
    }

    /** The walk over an aggregation packet. */
    method Walk(payload: Bytes) returns (errors: nat)
      requires payload != []
      modifies this
      ensures Turn(Abs(), [], errors) == Aggregated(old(Abs()), payload, 1)
    {
      hide IsIdr, GetU16;
      errors := 0;
      var off: nat := 1;
      while off + 2 <= |payload|
        invariant Aggregated(Abs(), payload, off) == Aggregated(old(Abs()), payload, 1)
        decreases |payload| - off
      {
        var size := GetU16(payload, off);
        off := off + 2;
        if size == 0 {
          continue;
        }
        if off + size > |payload| {
          errors := 1;
          return;
        }
        var n := payload[off..off + size];
        nalus := nalus + [n];
        if IsIdr(n) {
          sawIdr := true;
        }
        off := off + size;
      }
    }

    static method ConcatAll(parts: seq<Bytes>) returns (all: Bytes)
      ensures all == Concat(parts)
    {
      all := [];
      assert parts[0..] == parts;
      for i := 0 to |parts|
        invariant all + Concat(parts[i..]) == Concat(parts)
      {
        assert parts[i..][1..] == parts[i + 1..];
        assert all + (parts[i] + Concat(parts[i + 1..])) == (all + parts[i]) + Concat(parts[i + 1..]);
        all := all + parts[i];
      }
      assert parts[|parts|..] == [] && all + [] == all;
    }
  }

  lemma IdrIs(n: Nalu)
    requires n != []
    ensures IsIdr(n) <==> TypeOf(n[0]) == 5
  {
  }

  // ------------------------------------------------------------------
  // Aggregation packets
  // ------------------------------------------------------------------

  ghost predicate Bundled(nalus: seq<Nalu>) {
    nalus != [] && forall i :: 0 <= i < |nalus| ==> 0 < |nalus[i]| < 0x1_0000
  }

  function Bundle(nalus: seq<Nalu>): Bytes
    requires forall i :: 0 <= i < |nalus| ==> |nalus[i]| < 0x1_0000
  {
    if nalus == [] then [] else PutU16(|nalus[0]|) + (nalus[0] + Bundle(nalus[1..]))
  }

  /** `packetizeStapA`. */
  function StapA(nalus: seq<Nalu>): Bytes
    requires Bundled(nalus)
  {
    [RefBits(nalus[0][0]) + STAP_A] + Bundle(nalus)
  }

  function AddAll(st: State, nalus: seq<Nalu>): State
    decreases |nalus|
  {
    if nalus == [] then st else AddAll(AddNalu(st, nalus[0]), nalus[1..])
  }

  lemma {:induction false} BundleWalks(st: State, p: Bytes, off: nat, nalus: seq<Nalu>)
    requires forall i :: 0 <= i < |nalus| ==> 0 < |nalus[i]| < 0x1_0000
    requires Holds(p, off, Bundle(nalus)) && off + |Bundle(nalus)| == |p|
    ensures Aggregated(st, p, off) == Turn(AddAll(st, nalus), [], 0)
    decreases |nalus|
  {
    hide PutU16, GetU16, IsIdr;
    if nalus == [] {
      assert off == |p|;
    } else {
      var n, rest := nalus[0], nalus[1..];
      HoldsSplit(p, off, PutU16(|n|), n + Bundle(rest));
      HoldsSplit(p, off + 2, n, Bundle(rest));
      GetPut16(p, off, |n|);
      BundleWalks(AddNalu(st, n), p, off + 2 + |n|, rest);
    }
  }

  lemma {:induction false} AddAllIs(st: State, nalus: seq<Nalu>)
    ensures AddAll(st, nalus) == State(st.nalus + nalus, st.fragments, st.sawIdr || AnyIdr(nalus))
    decreases |nalus|
  {
    hide IsIdr;
    if nalus != [] {
      var n, rest := nalus[0], nalus[1..];
      AddAllIs(AddNalu(st, n), rest);
      assert nalus == [n] + rest && (st.nalus + [n]) + rest == st.nalus + nalus;
      AnyIdrSplit(nalus);
    }
  }

  lemma AnyIdrSplit(nalus: seq<Nalu>)
    requires nalus != []
    ensures AnyIdr(nalus) <==> IsIdr(nalus[0]) || AnyIdr(nalus[1..])
  {
    hide IsIdr;
    if i :| 0 <= i < |nalus| && IsIdr(nalus[i]) {
      assert i > 0 ==> IsIdr(nalus[1..][i - 1]);
    }
    if i :| 0 <= i < |nalus| - 1 && IsIdr(nalus[1..][i]) {
      assert IsIdr(nalus[i + 1]);
    }
  }

  /** An aggregation packet delivers exactly its units, in order, without error: into the access unit that its
      marker ends, or into the one under way. */
  lemma StapADelivers(st: State, marker: bool, nalus: seq<Nalu>, ts: u32)
    requires Bundled(nalus)
    ensures var units, idr := st.nalus + nalus, st.sawIdr || AnyIdr(nalus);
            Receive(st, marker, ts, StapA(nalus)) ==
              if marker then Turn(State([], st.fragments, false), [AccessUnit(JoinAnnexB(units), ts, idr)], 0)
              else Turn(State(units, st.fragments, idr), [], 0)
  {
    hide JoinAnnexB, AnyIdr;
    var p := StapA(nalus);
    var b := RefBits(nalus[0][0]);
    assert p[0] == b + STAP_A && TypeOf(b + STAP_A) == STAP_A;
    assert p[1..] == Bundle(nalus);
    BundleWalks(st, p, 1, nalus);
    AddAllIs(st, nalus);
  }
}
