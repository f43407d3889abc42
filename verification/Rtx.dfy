/**
 Retransmission packets of src/retransmit.js (RFC 4588 section 4): the original number in front of the
 payload, on an SSRC and number of their own.
 */
module RtxModel {
  import opened Buffers
  import opened Options
  import opened Rtp
  import opened SenderBufferModel
  import opened SeqNum
  import opened Wire

  /** The end of the header as these functions compute it; a claimed extension may reach past the packet. */
  function HeaderLen(p: Bytes): (h: nat)
    requires |p| >= HEADER_SIZE
    ensures h >= FixedEnd(p)
  {
    if HasBlock(p) then ExtEnd(p) else FixedEnd(p)
  }

  function WithMarker(b: byte, pt: PayloadType): byte {
    if b >= 0x80 then 0x80 + pt else pt
  }

  function NoPadding(b: byte): byte {
    if HasPadding(b) then b - 0x20 else b
  }

  lemma NoPaddingKeeps(b: byte)
    ensures var r := NoPadding(b);
            && !HasPadding(r) && Version(r) == Version(b) && CsrcCount(r) == CsrcCount(b)
            && HasExtension(r) == HasExtension(b)
  {
    var v, x, c := b / 0x40, b / 0x10 % 2, b as int % 0x10;
    assert b / 0x20 == v * 2 + b / 0x20 % 2 && b / 0x10 == b / 0x20 * 2 + x;
    if HasPadding(b) {
      assert NoPadding(b) == v * 0x40 + x * 0x10 + c;
    }
  }

  /** The packet with its first four bytes and its SSRC replaced. */
  function Patch(p: Bytes, b0: byte, b1: byte, num: u16, ssrc: u32): (q: Bytes)
    requires |p| >= HEADER_SIZE
    ensures |q| == |p|
  {
    [b0, b1] + PutU16(num) + p[4..8] + PutU32(ssrc) + p[12..]
  }

  function BuildRtx(p: Bytes, rtxSsrc: u32, rtxPt: PayloadType, rtxNum: u16): Option<Bytes> {
    if |p| < HEADER_SIZE || |p| < HeaderLen(p) then None
    else
      var h := HeaderLen(p);
      Some(Patch(p[..h] + PutU16(NumOf(p)) + p[h..], p[0], WithMarker(p[1], rtxPt), rtxNum, rtxSsrc))
  }

  /** Where the payload ends. Unlike the parser this also honours padding that covers a payload of length 0. */
  function WrapEnd(x: Bytes): nat
    requires |x| >= HEADER_SIZE
  {
    var pad := x[|x| - 1];
    if HasPadding(x[0]) && pad >= 1 && HeaderLen(x) + pad <= |x| then |x| - pad else |x|
  }

  function ParseRtx(x: Bytes, ssrc: u32, pt: PayloadType): Option<Bytes> {
    if |x| < HEADER_SIZE || WrapEnd(x) < HeaderLen(x) + 2 then None
    else
      var h := HeaderLen(x);
      Some(Patch(x[..h] + x[h + 2..WrapEnd(x)], NoPadding(x[0]), WithMarker(x[1], pt), GetU16(x, h), ssrc))
  }

  // ------------------------------------------------------------------
  // Round trip
  // ------------------------------------------------------------------

  /** The original without its padding. */
  function Stripped(p: Bytes): Bytes
    requires |p| >= HEADER_SIZE && HeaderLen(p) <= |p|
  {
    [NoPadding(p[0])] + p[1..PayloadEnd(p, HeaderLen(p))]
  }

  /** An extension announced but not there. */
  predicate CutExtension(p: Bytes)
    requires |p| >= HEADER_SIZE
  {
    HasExtension(p[0]) && FixedEnd(p) + 2 <= |p| < FixedEnd(p) + 4
  }

  /** The byte that ends the wrapped packet: the original's last one, or half its number when it has no payload. */
  function LastWrapped(p: Bytes): byte
    requires |p| >= HEADER_SIZE && HeaderLen(p) <= |p|
  {
    if |p| > HeaderLen(p) then p[|p| - 1] else NumOf(p) % 0x100
  }

  /** A pad count the original's length rules out but the two bytes of the number make possible. */
  predicate Overpadded(p: Bytes)
    requires |p| >= HEADER_SIZE && HeaderLen(p) <= |p|
  {
    var payload := |p| - HeaderLen(p);
    HasPadding(p[0]) && (LastWrapped(p) == payload + 1 || LastWrapped(p) == payload + 2)
  }

  lemma PatchParts(p: Bytes, b0: byte, b1: byte, num: u16, ssrc: u32)
    requires |p| >= HEADER_SIZE
    ensures var q := Patch(p, b0, b1, num, ssrc);
            && q[0] == b0 && q[1] == b1 && q[4..8] == p[4..8] && q[12..] == p[12..]
            && GetU16(q, 2) == num && GetU32(q, 8) == ssrc
            && q[..12] == [b0, b1] + PutU16(num) + p[4..8] + PutU32(ssrc)
  {
    hide PutU16, PutU32, GetU16, GetU32;
    var q := Patch(p, b0, b1, num, ssrc);
    var a, b, c, d, e := [b0, b1], PutU16(num), p[4..8], PutU32(ssrc), p[12..];
    assert q == a + b + c + d + e;
    assert q[2..4] == b && q[8..12] == d;
    GetPut16(q, 2, num);
    GetPut32(q, 8, ssrc);
  }

  /** The first byte patched over does not matter. */
  lemma PatchFirst(y: Bytes, b: byte, b0: byte, b1: byte, num: u16, ssrc: u32)
    requires |y| >= HEADER_SIZE
    ensures Patch(y[0 := b], b0, b1, num, ssrc) == Patch(y, b0, b1, num, ssrc)
  {
    assert y[0 := b][4..8] == y[4..8] && y[0 := b][12..] == y[12..];
  }

  /** The pieces of a wrapped packet. */
  lemma WrappedParts(p: Bytes, rtxSsrc: u32, rtxPt: PayloadType, rtxNum: u16)
    requires |p| >= HEADER_SIZE && HeaderLen(p) <= |p|
    ensures var x, h := BuildRtx(p, rtxSsrc, rtxPt, rtxNum).value, HeaderLen(p);
            && |x| == |p| + 2 && x[0] == p[0] && x[1] == WithMarker(p[1], rtxPt) && x[4..8] == p[4..8]
            && x[12..h] == p[12..h] && x[h..h + 2] == PutU16(NumOf(p)) && x[h + 2..] == p[h..]
            && GetU16(x, 2) == rtxNum && GetU32(x, 8) == rtxSsrc
  {
    hide PutU16, PutU32, GetU16, GetU32, HeaderLen;
    var h, osn := HeaderLen(p), PutU16(NumOf(p));
    var w := p[..h] + osn + p[h..];
    PatchParts(w, p[0], WithMarker(p[1], rtxPt), rtxNum, rtxSsrc);
    var x := BuildRtx(p, rtxSsrc, rtxPt, rtxNum).value;
    assert w[4..8] == p[4..8] && w[12..] == p[12..h] + osn + p[h..];
    assert x[12..h] == x[12..][..h - 12] && x[h..h + 2] == x[12..][h - 12..h - 10] && x[h + 2..] == x[12..][h - 10..];
  }

  lemma SameHeaderLen(p: Bytes, x: Bytes)
    requires |p| >= HEADER_SIZE && |x| >= HEADER_SIZE
    requires CsrcCount(x[0]) == CsrcCount(p[0]) && HasExtension(x[0]) == HasExtension(p[0])
    requires HeaderLen(p) <= |p| && HeaderLen(p) <= |x| && x[12..HeaderLen(p)] == p[12..HeaderLen(p)]
    requires HasBlock(p) || !HasExtension(p[0]) || |x| < FixedEnd(p) + 4
    ensures HeaderLen(x) == HeaderLen(p)
  {
    var f := FixedEnd(p);
    if HasBlock(p) {
      assert GetU16(p, f + 2) == GetU16(x, f + 2) by {
        assert p[f + 2] == p[12..HeaderLen(p)][f - 10] && x[f + 2] == x[12..HeaderLen(p)][f - 10];
        assert p[f + 3] == p[12..HeaderLen(p)][f - 9] && x[f + 3] == x[12..HeaderLen(p)][f - 9];
      }
    }
  }

  /** Unwrapping a wrapped packet gives the original with its padding stripped, or nothing: exactly when the
      packet is malformed in one of two ways. */
  lemma UnwrapExact(p: Bytes, rtxSsrc: u32, rtxPt: PayloadType, rtxNum: u16)
    requires |p| >= HEADER_SIZE && HeaderLen(p) <= |p|
    ensures var x := BuildRtx(p, rtxSsrc, rtxPt, rtxNum);
            && x.Some?
            && ParseRtx(x.value, SsrcOf(p), p[1] as int % 0x80)
               == if CutExtension(p) || Overpadded(p) then None else Some(Stripped(p))
  {
    hide PutU16, PutU32, GetU16, GetU32, HasPadding, HasExtension, CsrcCount;
    var x := BuildRtx(p, rtxSsrc, rtxPt, rtxNum).value;
    WrappedParts(p, rtxSsrc, rtxPt, rtxNum);
    if !CutExtension(p) {
      SameHeaderLen(p, x);
      LastOf(p, x);
      if !Overpadded(p) {
        Rebuilt(p, x, rtxPt);
      }
    }
  }

  lemma LastOf(p: Bytes, x: Bytes)
    requires |p| >= HEADER_SIZE && HeaderLen(p) <= |p| && |x| == |p| + 2
    requires x[HeaderLen(p)..HeaderLen(p) + 2] == PutU16(NumOf(p)) && x[HeaderLen(p) + 2..] == p[HeaderLen(p)..]
    ensures x[|x| - 1] == LastWrapped(p)
  {
    var h := HeaderLen(p);
    if |p| > h {
      assert x[|x| - 1] == x[h + 2..][|p| - h - 1];
      assert p[|p| - 1] == p[h..][|p| - h - 1];
    } else {
      assert x[|x| - 1] == x[h..h + 2][1];
    }
  }

  lemma Rebuilt(p: Bytes, x: Bytes, rtxPt: PayloadType)
    requires |p| >= HEADER_SIZE && HeaderLen(p) <= |p| && !Overpadded(p)
    requires var h := HeaderLen(p);
             && |x| == |p| + 2 && HeaderLen(x) == h && x[0] == p[0]
             && x[1] == WithMarker(p[1], rtxPt) && x[4..8] == p[4..8]
             && x[12..h] == p[12..h] && x[h..h + 2] == PutU16(NumOf(p)) && x[h + 2..] == p[h..]
             && x[|x| - 1] == LastWrapped(p)
    ensures ParseRtx(x, SsrcOf(p), p[1] as int % 0x80) == Some(Stripped(p))
  {
    hide PutU16, PutU32, GetU16, GetU32, HasPadding, HeaderLen, Patch, NoPadding, WithMarker;
    var h, pt: PayloadType := HeaderLen(p), p[1] as int % 0x80;
    var end := WrapEnd(x);
    assert end == PayloadEnd(p, h) + 2;
    GetPut16(x, h, NumOf(p));
    MarkerBack(p[1], rtxPt);
    var y := x[..h] + x[h + 2..end];
    assert x[h + 2..end] == x[h + 2..][..end - h - 2] == p[h..][..end - h - 2] == p[h..end - 2];
    assert y[12..] == x[12..h] + x[h + 2..end] == p[12..h] + p[h..end - 2] == p[12..end - 2];
    assert y[4..8] == x[4..8] == p[4..8];
    PatchedBack(p, y, NoPadding(p[0]), end - 2);
  }

  /** Putting a packet's own number and SSRC back restores it up to the first byte. */
  lemma PatchedBack(p: Bytes, y: Bytes, b0: byte, end: nat)
    requires HEADER_SIZE <= end <= |p| && |y| == end && y[4..8] == p[4..8] && y[12..] == p[12..end]
    ensures Patch(y, b0, p[1], NumOf(p), SsrcOf(p)) == [b0] + p[1..end]
  {
    hide PutU16, PutU32, GetU16, GetU32;
    PutGet16(p, 2);
    PutGet32(p, 8);
    assert p[1..end] == [p[1]] + p[2..4] + p[4..8] + p[8..12] + p[12..end];
  }

  lemma MarkerBack(b: byte, rtxPt: PayloadType)
    ensures WithMarker(WithMarker(b, rtxPt), b as int % 0x80) == b
  {
  }

  /** The stripped packet parses as the original did, with the padding bit off. */
  lemma StrippedParses(p: Bytes)
    requires |p| >= HEADER_SIZE && HeaderLen(p) <= |p| && Parse(p).Some?
    ensures Parse(Stripped(p)) == Some(Parse(p).value.(padding := false))
  {
    hide GetU16, GetU32, HasPadding, HasExtension, CsrcCount, Version, Csrcs, HeaderExt.ParseExtensions, NoPadding;
    var h := HeaderLen(p);
    var end := PayloadEnd(p, h);
    var q := Stripped(p);
    NoPaddingKeeps(p[0]);
    assert |q| == end && q[0] == NoPadding(p[0]);
    assert q[1..] == p[1..end];
    assert forall i :: 1 <= i < end ==> q[i] == q[1..][i - 1] && p[i] == p[1..end][i - 1];
    assert q[1..FixedEnd(p)] == p[1..FixedEnd(p)];
    SameFields(p, q, CsrcCount(p[0]));
    assert q[1] == p[1];
    if HasBlock(p) {
      var f := FixedEnd(p);
      SameWord(p, q, f, end);
      SameWord(p, q, f + 2, end);
      assert q[f + 4..h] == p[f + 4..h];
    }
    assert q[h..end] == p[h..end];
  }

  lemma SameWord(p: Bytes, q: Bytes, i: nat, end: nat)
    requires 1 <= i && i + 2 <= end <= |p| && |q| == end && q[1..] == p[1..end]
    ensures GetU16(q, i) == GetU16(p, i)
  {
    assert q[i] == q[1..][i - 1] && q[i + 1] == q[1..][i] && p[i] == p[1..end][i - 1] && p[i + 1] == p[1..end][i];
  }

  // ------------------------------------------------------------------
  // What a receiver reads
  // ------------------------------------------------------------------

  /** The second byte keeps the marker and carries the payload type. */
  lemma MarkerKept(b: byte, pt: PayloadType)
    ensures WithMarker(b, pt) >= 0x80 <==> b >= 0x80
    ensures WithMarker(b, pt) as int % 0x80 == pt
  {
  }

  /** A wrapped packet parses as the original does, under the type, number and SSRC of the retransmission, with the
      original number in front of the payload. */
  lemma WrappedParses(p: Bytes, rtxSsrc: u32, rtxPt: PayloadType, rtxNum: u16)
    requires Wrappable(p) && Parse(p).Some?
    ensures var x, from := BuildRtx(p, rtxSsrc, rtxPt, rtxNum), Parse(p).value;
            && x.Some?
            && Parse(x.value) ==
                 Some(from.(payloadType := rtxPt, num := rtxNum, ssrc := rtxSsrc,
                            payload := [p[2], p[3]] + from.payload))
  {
    hide PutU32, GetU16, GetU32, HasPadding, HasExtension, CsrcCount, Version, Csrcs, HeaderExt.ParseExtensions;
    var x, h := BuildRtx(p, rtxSsrc, rtxPt, rtxNum).value, HeaderLen(p);
    WrappedParts(p, rtxSsrc, rtxPt, rtxNum);
    MarkerKept(p[1], rtxPt);
    SameHeaderLen(p, x);
    LastOf(p, x);
    hide WithMarker;
    assert x[h..h + 2] == [p[2], p[3]] by { NumBytes(p); }
    WrappedPayload(p, x);
    SameRest(p, x, h);
  }

  lemma NumBytes(p: Bytes)
    requires |p| >= HEADER_SIZE
    ensures PutU16(NumOf(p)) == [p[2], p[3]]
  {
    PutGet16(p, 2);
  }

  /** Where the payload ends moves by the two bytes of the number. */
  lemma WrappedPayload(p: Bytes, x: Bytes)
    requires Wrappable(p) && |x| == |p| + 2 && x[0] == p[0] && HeaderLen(x) == HeaderLen(p)
    requires x[HeaderLen(p)..HeaderLen(p) + 2] == [p[2], p[3]] && x[HeaderLen(p) + 2..] == p[HeaderLen(p)..]
    requires x[|x| - 1] == LastWrapped(p)
    ensures var h := HeaderLen(p);
            x[h..PayloadEnd(x, h)] == [p[2], p[3]] + p[h..PayloadEnd(p, h)]
  {
    hide HeaderLen, HasPadding, CutExtension;
    var h := HeaderLen(p);
    assert PayloadEnd(x, h) == PayloadEnd(p, h) + 2;
    var e := PayloadEnd(p, h);
    assert x[h..e + 2] == x[h..h + 2] + x[h + 2..][..e - h];
  }

  /** Time stamp, contributing sources and extensions are read alike. */
  lemma SameRest(p: Bytes, x: Bytes, h: nat)
    requires |p| >= HEADER_SIZE && |x| >= HEADER_SIZE && x[0] == p[0] && x[4..8] == p[4..8]
    requires h == HeaderLen(p) == HeaderLen(x) && h <= |p| && h <= |x| && x[12..h] == p[12..h]
    ensures GetU32(x, 4) == GetU32(p, 4) && FixedEnd(x) == FixedEnd(p) <= h
    ensures Csrcs(x, CsrcCount(x[0])) == Csrcs(p, CsrcCount(p[0]))
    ensures (HasBlock(p) <==> HasBlock(x)) ==> HeaderEnd(x) == HeaderEnd(p) == h && Extensions(x) == Extensions(p)
  {
    hide HasExtension, CsrcCount, HeaderExt.ParseExtensions;
    var f := FixedEnd(p);
    forall i | 12 <= i < h ensures x[i] == p[i] {
      assert x[i] == x[12..h][i - 12] && p[i] == p[12..h][i - 12];
    }
    forall i | 4 <= i < 8 ensures x[i] == p[i] {
      assert x[i] == x[4..8][i - 4] && p[i] == p[4..8][i - 4];
    }
    assert forall i :: 0 <= i < CsrcCount(p[0]) ==> GetU32(x, HEADER_SIZE + i * 4) == GetU32(p, HEADER_SIZE + i * 4);
    if HasBlock(p) && HasBlock(x) {
      assert x[f + 4..h] == p[f + 4..h];
    }
  }

  lemma UnwrappedBytes(x: Bytes, ssrc: u32, pt: PayloadType)
    requires ParseRtx(x, ssrc, pt).Some?
    ensures var y, h := ParseRtx(x, ssrc, pt).value, HeaderLen(x);
            && |x| >= HEADER_SIZE && h + 2 <= WrapEnd(x) <= |x| && |y| == WrapEnd(x) - 2
            && (y[1] >= 0x80 <==> x[1] >= 0x80) && y[1] as int % 0x80 == pt
            && !HasPadding(y[0]) && Version(y[0]) == Version(x[0]) && CsrcCount(y[0]) == CsrcCount(x[0])
            && HasExtension(y[0]) == HasExtension(x[0])
            && GetU16(y, 2) == GetU16(x, h) && y[4..8] == x[4..8] && GetU32(y, 8) == ssrc
            && y[12..] == x[12..h] + x[h + 2..WrapEnd(x)]
  {
    hide PutU16, PutU32, GetU16, GetU32, HeaderLen;
    var h, end := HeaderLen(x), WrapEnd(x);
    var w := x[..h] + x[h + 2..end];
    PatchParts(w, NoPadding(x[0]), WithMarker(x[1], pt), GetU16(x, h), ssrc);
    NoPaddingKeeps(x[0]);
    MarkerKept(x[1], pt);
    assert w[4..8] == x[4..8] && w[12..] == x[12..h] + x[h + 2..end];
  }

  /** Any packet from another sender that parses: with two bytes of payload or more it is restored to a packet that
      parses as it does, without padding, under the given type and SSRC, with the number taken from the payload;
      with fewer it is refused. */
  lemma UnwrappedParses(x: Bytes, ssrc: u32, pt: PayloadType)
    requires Parse(x).Some? && HeaderLen(x) <= |x|
    ensures var y, from := ParseRtx(x, ssrc, pt), Parse(x).value;
            && (y.Some? <==> |from.payload| >= 2)
            && (y.Some? ==>
                  Parse(y.value) ==
                    Some(from.(padding := false, payloadType := pt, num := GetU16(from.payload, 0), ssrc := ssrc,
                               payload := from.payload[2..])))
  {
    var h, end, payload := HeaderLen(x), WrapEnd(x), Parse(x).value.payload;
    EndsAlike(x);
    assert ParseRtx(x, ssrc, pt).Some? <==> end >= h + 2;
    if end >= h + 2 {
      var y := ParseRtx(x, ssrc, pt).value;
      UnwrappedBytes(x, ssrc, pt);
      NumInPayload(x, h, end);
      hide ParseRtx, GetU16, GetU32, WrapEnd, HeaderLen, HeaderEnd, Extensions, Csrcs, HasPadding, HasExtension;
      hide CsrcCount, Version;
      assert y[12..h] == y[12..][..h - 12] && y[h..] == y[12..][h - 12..];
      assert y[4..8] == x[4..8] && y[12..h] == x[12..h];
      RestoredHeader(x, y, h);
      assert y[h..|y|] == payload[2..];
    }
  }

  /** For a packet that holds its header, the wrapper and the parser agree where header and payload end. */
  lemma EndsAlike(x: Bytes)
    requires Parse(x).Some? && HeaderLen(x) <= |x|
    ensures HeaderEnd(x) == HeaderLen(x) && WrapEnd(x) == PayloadEnd(x, HeaderLen(x))
    ensures Parse(x).value.payload == x[HeaderLen(x)..WrapEnd(x)]
  {
    hide HasPadding, HasExtension, CsrcCount, GetU16, Csrcs, Extensions;
  }

  lemma NumInPayload(x: Bytes, h: nat, end: nat)
    requires h + 2 <= end <= |x|
    ensures GetU16(x, h) == GetU16(x[h..end], 0)
  {
  }

  lemma RestoredHeader(x: Bytes, y: Bytes, h: nat)
    requires |x| >= HEADER_SIZE && |y| >= HEADER_SIZE && h == HeaderLen(x) && h <= |y| && h + 2 <= |x| && |y| + 2 <= |x|
    requires CsrcCount(y[0]) == CsrcCount(x[0]) && HasExtension(y[0]) == HasExtension(x[0])
    requires y[4..8] == x[4..8] && y[12..h] == x[12..h]
    ensures HeaderLen(y) == h && GetU32(y, 4) == GetU32(x, 4) && FixedEnd(y) == FixedEnd(x) <= h
    ensures Csrcs(y, CsrcCount(y[0])) == Csrcs(x, CsrcCount(x[0]))
    ensures HeaderEnd(y) == HeaderEnd(x) == h && Extensions(y) == Extensions(x)
  {
    hide HasExtension, CsrcCount, HeaderExt.ParseExtensions;
    var f := FixedEnd(x);
    forall i | 12 <= i < h ensures y[i] == x[i] {
      assert y[i] == y[12..h][i - 12] && x[i] == x[12..h][i - 12];
    }
    forall i | 4 <= i < 8 ensures y[i] == x[i] {
      assert y[i] == y[4..8][i - 4] && x[i] == x[4..8][i - 4];
    }
    assert forall i :: 0 <= i < CsrcCount(x[0]) ==> GetU32(y, HEADER_SIZE + i * 4) == GetU32(x, HEADER_SIZE + i * 4);
    if HasBlock(x) {
      assert y[f + 4..h] == x[f + 4..h];
    }
  }

  /** The bytes that differ, whatever the packet: marker kept, type replaced, number and SSRC the new ones. */
  lemma WrappedBytes(p: Bytes, rtxSsrc: u32, rtxPt: PayloadType, rtxNum: u16)
    requires BuildRtx(p, rtxSsrc, rtxPt, rtxNum).Some?
    ensures var x, h := BuildRtx(p, rtxSsrc, rtxPt, rtxNum).value, HeaderLen(p);
            && |x| == |p| + 2 && x[0] == p[0] && (x[1] >= 0x80 <==> p[1] >= 0x80) && x[1] as int % 0x80 == rtxPt
            && GetU16(x, 2) == rtxNum && x[4..8] == p[4..8] && GetU32(x, 8) == rtxSsrc
            && x[12..h] == p[12..h] && x[h..h + 2] == p[2..4] && x[h + 2..] == p[h..]
  {
    hide PutU32, GetU16, GetU32, HeaderLen;
    WrappedParts(p, rtxSsrc, rtxPt, rtxNum);
    MarkerKept(p[1], rtxPt);
    PutGet16(p, 2);
  }

  // ------------------------------------------------------------------
  // The retransmission stream
  // ------------------------------------------------------------------

  datatype Rtx = Rtx(ssrc: u32, pt: PayloadType)

  /** Wrapping one packet after another; the number moves on even when a packet cannot be wrapped. */
  function WrapAll(rtx: Rtx, num: u16, packets: seq<Bytes>): (x: seq<Option<Bytes>>)
    ensures |x| == |packets|
    decreases |packets|
  {
    if packets == [] then []
    else [BuildRtx(packets[0], rtx.ssrc, rtx.pt, Next(num))] + WrapAll(rtx, Next(num), packets[1..])
  }

  lemma {:induction false} WrapAllAt(rtx: Rtx, num: u16, packets: seq<Bytes>, k: nat)
    requires k < |packets|
    ensures WrapAll(rtx, num, packets)[k] == BuildRtx(packets[k], rtx.ssrc, rtx.pt, Wrap(num + k + 1))
    decreases k
  {
    hide BuildRtx;
    WrapForward(num, 0);
    if k > 0 {
      WrapAdd(num + 1, k);
      WrapAllAt(rtx, Next(num), packets[1..], k - 1);
    }
  }

  /** The packets at these positions. */
  function Picked(own: seq<Bytes>, asked: seq<nat>): (p: seq<Bytes>)
    requires forall j :: 0 <= j < |asked| ==> asked[j] < |own|
    ensures |p| == |asked| && forall j :: 0 <= j < |asked| ==> p[j] == own[asked[j]]
  {
    seq(|asked|, j requires 0 <= j < |asked| => own[asked[j]])
  }

  predicate Wrappable(p: Bytes) {
    |p| >= HEADER_SIZE && HeaderLen(p) <= |p| && !CutExtension(p) && !Overpadded(p)
  }

  /** A well-formed extension block and valid padding are enough. */
  lemma WellFormedWrappable(p: Bytes)
    requires |p| >= HEADER_SIZE && FixedEnd(p) <= |p|
    requires HasExtension(p[0]) ==> HasBlock(p) && ExtEnd(p) <= |p|
    requires HasPadding(p[0]) ==> 1 <= p[|p| - 1] <= |p| - HeaderLen(p)
    ensures Wrappable(p)
  {
  }

  /** The wrapped packet carries this number and SSRC, and unwraps to `p` without its padding. */
  ghost predicate Carries(x: Option<Bytes>, rtx: Rtx, num: u16, p: Bytes, ssrc: u32)
    requires Wrappable(p)
  {
    && x.Some? && |x.value| >= HEADER_SIZE
    && GetU16(x.value, 2) == num && GetU32(x.value, 8) == rtx.ssrc
    && ParseRtx(x.value, ssrc, p[1] as int % 0x80) == Some(Stripped(p))
  }

  /** Every packet asked for comes through, under consecutive retransmission numbers. */
  lemma WrappedCarries(own: seq<Bytes>, ssrc: u32, asked: seq<nat>, rtx: Rtx, num: u16, k: nat)
    requires OwnedBy(own, ssrc) && k < |asked| && (forall j :: 0 <= j < |asked| ==> asked[j] < |own|)
    requires Wrappable(own[asked[k]])
    ensures Carries(WrapAll(rtx, num, Picked(own, asked))[k], rtx, Wrap(num + k + 1), own[asked[k]], ssrc)
  {
    hide BuildRtx, ParseRtx, Stripped, Overpadded, CutExtension, HeaderLen, GetU16, GetU32;
    var p := own[asked[k]];
    WrapAllAt(rtx, num, Picked(own, asked), k);
    UnwrapExact(p, rtx.ssrc, rtx.pt, Wrap(num + k + 1));
    WrappedParts(p, rtx.ssrc, rtx.pt, Wrap(num + k + 1));
  }

  /** A repair from store to receiver: any of the last `size` packets of an SSRC is fetched, wrapped under the
      next retransmission number, and unwrapped to the original without its padding. */
  lemma Repairs(size: nat, sent: seq<Bytes>, ssrc: u32, first: nat, asked: seq<nat>, rtx: Rtx, num: u16, k: nat)
    requires size > 0 && 0x1_0000 % size == 0 && k < |asked|
    requires Consecutive(Only(sent, ssrc), first)
    requires forall j :: 0 <= j < |asked| ==> asked[j] < |Only(sent, ssrc)| <= asked[j] + size
    requires Wrappable(Only(sent, ssrc)[asked[k]])
    ensures var own := Only(sent, ssrc);
            && Fetched(StoreAll(map[], size, sent), size, ssrc, Wrap(first + asked[k])) == Some(own[asked[k]])
            && Carries(WrapAll(rtx, num, Picked(own, asked))[k], rtx, Wrap(num + k + 1), own[asked[k]], ssrc)
  {
    hide Fetched, StoreAll, Carries, Wrappable;
    OnlyOwn(sent, ssrc);
    LastSizeFetched(size, sent, ssrc, first, asked[k]);
    WrappedCarries(Only(sent, ssrc), ssrc, asked, rtx, num, k);
  }

  // ------------------------------------------------------------------
  // The byte patching
  // ------------------------------------------------------------------

  /** Copies header, number and payload into a new buffer, then patches it. */
  method BuildRtxPacket(p: Bytes, rtxSsrc: u32, rtxPt: PayloadType, rtxNum: u16) returns (r: Option<Bytes>)
    ensures r == BuildRtx(p, rtxSsrc, rtxPt, rtxNum)
  {
    hide PutU16, PutU32, GetU16, GetU32;
    if |p| < HEADER_SIZE {
      return None;
    }
    var h := HeaderLen(p);
    if |p| < h {
      return None;
    }
    var out := new byte[|p| + 2];
    Copy(p[..h], out, 0);
    WriteU16(out, h, NumOf(p));
    Copy(p[h..], out, h + 2);
    ghost var w := p[..h] + PutU16(NumOf(p)) + p[h..];
    assert out[..] == w;
    PatchInPlace(out, WithMarker(p[1], rtxPt), rtxNum, rtxSsrc);
    assert w[0] == p[0];
    r := Some(out[..]);
  }

  method PatchInPlace(out: array<byte>, b1: byte, num: u16, ssrc: u32)
    requires out.Length >= HEADER_SIZE
    modifies out
    ensures out[..] == Patch(old(out[..]), old(out[0]), b1, num, ssrc)
  {
    hide PutU16, PutU32;
    ghost var w := out[..];
    out[1] := b1;
    WriteU16(out, 2, num);
    WriteU32(out, 8, ssrc);
    assert out[..] == [w[0], b1] + PutU16(num) + w[4..8] + PutU32(ssrc) + w[12..];
  }

  method ParseRtxPacket(x: Bytes, ssrc: u32, pt: PayloadType) returns (r: Option<Bytes>)
    ensures r == ParseRtx(x, ssrc, pt)
  {
    hide PutU16, PutU32, GetU16, GetU32, Patch, NoPadding, WithMarker, HeaderLen;
    if |x| < HEADER_SIZE {
      return None;
    }
    var h, end := HeaderLen(x), |x|;
    if HasPadding(x[0]) {
      var padLen := x[|x| - 1];
      if padLen >= 1 && h + padLen <= |x| {
        end := end - padLen;
      }
    }
    if end < h + 2 {
      return None;
    }
    var out := Restore(x, h, end, WithMarker(x[1], pt), ssrc);
    r := Some(out);
  }

  /** Header and payload without the number between them, patched back. */
  method Restore(x: Bytes, h: nat, end: nat, b1: byte, ssrc: u32) returns (r: Bytes)
    requires HEADER_SIZE <= h && h + 2 <= end <= |x|
    ensures r == Patch(x[..h] + x[h + 2..end], NoPadding(x[0]), b1, GetU16(x, h), ssrc)
  {
    hide GetU16, Patch, NoPadding;
    ghost var y := x[..h] + x[h + 2..end];
    var out := new byte[end - 2];
    Copy(x[..h], out, 0);
    Copy(x[h + 2..end], out, h);
    assert out[..] == out[..end - 2] == y;
    out[0] := NoPadding(out[0]);
    assert out[..] == y[0 := NoPadding(x[0])];
    PatchFirst(y, NoPadding(x[0]), NoPadding(x[0]), b1, GetU16(x, h), ssrc);
    PatchInPlace(out, b1, GetU16(x, h), ssrc);
    r := out[..];
  }

  class RtxStream {
    const rtx: Rtx
    var num: u16

    constructor (rtx: Rtx, num: u16)
      ensures this.rtx == rtx && this.num == num
    {
      this.rtx, this.num := rtx, num;
    }

    method Wrapped(p: Bytes) returns (r: Option<Bytes>)
      modifies this
      ensures num == Next(old(num)) && [r] == WrapAll(rtx, old(num), [p])
    {
      num := if num == 0xFFFF then 0 else num + 1;
      r := BuildRtxPacket(p, rtx.ssrc, rtx.pt, num);
      assert [p][1..] == [];
    }
  }
}
