/**
 RTP packets of src/rtp.js (RFC 3550 section 5.1): the parser, the packet builder, and the editors of the
 header extension block.
 */
module Rtp {
  import opened Buffers
  import opened HeaderExt
  import opened Options
  import opened SeqNum
  import opened Wire

  const HEADER_SIZE := 12
  const VERSION := 2

  // ------------------------------------------------------------------
  // The first byte
  // ------------------------------------------------------------------

  function Version(b: byte): nat {
    b / 0x40
  }

  predicate HasPadding(b: byte) {
    b / 0x20 % 2 == 1
  }

  predicate HasExtension(b: byte) {
    b / 0x10 % 2 == 1
  }

  function CsrcCount(b: byte): nat {
    b as int % 0x10
  }

  function WithExtension(b: byte): byte {
    if HasExtension(b) then b else b + 0x10
  }

  lemma WithExtensionKeeps(b: byte)
    ensures var r := WithExtension(b);
            && HasExtension(r) && Version(r) == Version(b)
            && HasPadding(r) == HasPadding(b) && CsrcCount(r) == CsrcCount(b)
            && (HasExtension(b) <==> r == b)
  {
  }

  // ------------------------------------------------------------------
  // Parser
  // ------------------------------------------------------------------

  datatype Packet = Packet(padding: bool, extension: bool, csrcCount: nat, marker: bool, payloadType: nat, num: u16,
                           ts: u32, ssrc: u32, csrc: seq<u32>, payload: Bytes, headerLength: nat,
                           extensions: Option<Exts>)

  /** The end of the CSRC list. */
  function FixedEnd(p: Bytes): nat
    requires |p| > 0
  {
    HEADER_SIZE + CsrcCount(p[0]) * 4
  }

  /** The end of the extension block, as its length field claims. */
  function ExtEnd(p: Bytes): (e: nat)
    requires |p| > 0 && FixedEnd(p) + 4 <= |p|
    ensures e >= FixedEnd(p) + 4
  {
    FixedEnd(p) + 4 + GetU16(p, FixedEnd(p) + 2) * 4
  }

  predicate HasBlock(p: Bytes)
    requires |p| > 0
  {
    HasExtension(p[0]) && |p| >= FixedEnd(p) + 4
  }

  /** A claim past the end of the packet is cut there. */
  function HeaderEnd(p: Bytes): (e: nat)
    requires |p| > 0 && FixedEnd(p) <= |p|
    ensures FixedEnd(p) <= e <= |p|
  {
    if !HasBlock(p) then FixedEnd(p)
    else if ExtEnd(p) <= |p| then ExtEnd(p) else |p|
  }

  function Extensions(p: Bytes): Option<Exts>
    requires |p| > 0
  {
    if HasBlock(p) && GetU16(p, FixedEnd(p)) == PROFILE_ONE_BYTE && ExtEnd(p) <= |p|
    then Some(ParseExtensions(p[FixedEnd(p) + 4..ExtEnd(p)]))
    else None
  }

  /** A pad count of zero, or one reaching into the header, is ignored. */
  function PayloadEnd(p: Bytes, headerEnd: nat): (e: nat)
    requires headerEnd <= |p| && 0 < |p|
    ensures headerEnd <= e <= |p|
  {
    if HasPadding(p[0]) && |p| > headerEnd && p[|p| - 1] >= 1 && headerEnd + p[|p| - 1] <= |p|
    then |p| - p[|p| - 1] else |p|
  }

  function Csrcs(p: Bytes, n: nat): (c: seq<u32>)
    requires HEADER_SIZE + n * 4 <= |p|
    ensures |c| == n
  {
    seq(n, i requires 0 <= i < n => GetU32(p, HEADER_SIZE + i * 4))
  }

  function Parse(p: Bytes): Option<Packet> {
    if |p| < HEADER_SIZE || Version(p[0]) != VERSION || |p| < FixedEnd(p) then None
    else
      var e := HeaderEnd(p);
      Some(Packet(HasPadding(p[0]), HasExtension(p[0]), CsrcCount(p[0]), p[1] >= 0x80, p[1] as int % 0x80,
                  GetU16(p, 2), GetU32(p, 4), GetU32(p, 8), Csrcs(p, CsrcCount(p[0])),
                  p[e..PayloadEnd(p, e)], e, Extensions(p)))
  }

  /** `payloadOffset` answers as the parser does, on every input. */
  function PayloadOffset(p: Bytes): (r: int)
    ensures r == if Parse(p).None? then -1 else Parse(p).value.headerLength
  {
    if |p| < HEADER_SIZE || Version(p[0]) != VERSION then -1
    else
      var headerLen := FixedEnd(p);
      if |p| < headerLen then -1
      else if HasExtension(p[0]) && |p| >= headerLen + 4 then
        var extEnd := headerLen + 4 + GetU16(p, headerLen + 2) * 4;
        if extEnd <= |p| then extEnd else |p|
      else headerLen
  }

  /** `parse`, with its loop over the CSRC list. */
  method ParsePacket(p: Bytes) returns (r: Option<Packet>)
    ensures r == Parse(p)
  {
    if |p| < HEADER_SIZE || Version(p[0]) != VERSION {
      return None;
    }
    var count := CsrcCount(p[0]);
    var headerLen := HEADER_SIZE + count * 4;
    if |p| < headerLen {
      return None;
    }
    var csrc: seq<u32> := [];
    for i := 0 to count
      invariant csrc == Csrcs(p, i)
    {
      csrc := csrc + [GetU32(p, HEADER_SIZE + i * 4)];
    }
    var extensions := None;
    if HasExtension(p[0]) && |p| >= headerLen + 4 {
      var extDataEnd := headerLen + 4 + GetU16(p, headerLen + 2) * 4;
      if GetU16(p, headerLen) == PROFILE_ONE_BYTE && extDataEnd <= |p| {
        var exts := ParseLoop(p[headerLen + 4..extDataEnd]);
        extensions := Some(exts);
      }
      headerLen := if extDataEnd <= |p| then extDataEnd else |p|;
    }
    var payloadEnd := |p|;
    if HasPadding(p[0]) && |p| > headerLen {
      var padLen := p[|p| - 1];
      if padLen >= 1 && headerLen + padLen <= |p| {
        payloadEnd := payloadEnd - padLen;
      }
    }
    r := Some(Packet(HasPadding(p[0]), HasExtension(p[0]), count, p[1] >= 0x80, p[1] as int % 0x80,
                     GetU16(p, 2), GetU32(p, 4), GetU32(p, 8), csrc, p[headerLen..payloadEnd], headerLen, extensions));
  }

  // ------------------------------------------------------------------
  // Builder
  // ------------------------------------------------------------------

  type PayloadType = n: int | 0 <= n < 0x80

  function Header(b0: byte, pt: PayloadType, num: u16, ts: u32, ssrc: u32, marker: bool): (h: Bytes)
    ensures |h| == HEADER_SIZE
  {
    [b0, if marker then 0x80 + pt else pt] + (PutU16(num) + (PutU32(ts) + PutU32(ssrc)))
  }

  function MakePacket(pt: PayloadType, num: u16, ts: u32, ssrc: u32, marker: bool, payload: Bytes): Bytes {
    Header(0x80, pt, num, ts, ssrc, marker) + payload
  }

  lemma HeaderReads(p: Bytes, b0: byte, pt: PayloadType, num: u16, ts: u32, ssrc: u32, marker: bool)
    requires Holds(p, 0, Header(b0, pt, num, ts, ssrc, marker))
    ensures p[0] == b0 && (p[1] >= 0x80) == marker && p[1] as int % 0x80 == pt
    ensures GetU16(p, 2) == num && GetU32(p, 4) == ts && GetU32(p, 8) == ssrc
  {
    hide PutU16, PutU32, GetU16, GetU32;
    var first: Bytes := [b0, if marker then 0x80 + pt else pt];
    HoldsSplit(p, 0, first, PutU16(num) + (PutU32(ts) + PutU32(ssrc)));
    HoldsSplit(p, 2, PutU16(num), PutU32(ts) + PutU32(ssrc));
    HoldsSplit(p, 4, PutU32(ts), PutU32(ssrc));
    assert p[0] == p[0..2][0] && p[1] == p[0..2][1];
    GetPut16(p, 2, num);
    GetPut32(p, 4, ts);
    GetPut32(p, 8, ssrc);
  }

  /** A built packet parses back to its fields. */
  lemma MadeParses(pt: PayloadType, num: u16, ts: u32, ssrc: u32, marker: bool, payload: Bytes)
    ensures Parse(MakePacket(pt, num, ts, ssrc, marker, payload))
         == Some(Packet(false, false, 0, marker, pt, num, ts, ssrc, [], payload, HEADER_SIZE, None))
  {
    hide Header, GetU16, GetU32;
    var p := MakePacket(pt, num, ts, ssrc, marker, payload);
    HoldsPrefix(Header(0x80, pt, num, ts, ssrc, marker), payload);
    HeaderReads(p, 0x80, pt, num, ts, ssrc, marker);
    assert p[HEADER_SIZE..|p|] == payload;
    assert Csrcs(p, 0) == [];
  }

  // ------------------------------------------------------------------
  // Any packet
  // ------------------------------------------------------------------

  /** An extension block: its profile, and its data in 32-bit words. */
  datatype ExtBlock = ExtBlock(profile: u16, data: Bytes)

  /** The fields of section 5.1 of RFC 3550, with the P bit apart from what follows the header. */
  datatype Fields = Fields(padding: bool, marker: bool, payloadType: PayloadType, num: u16, ts: u32, ssrc: u32,
                           csrcs: seq<u32>, ext: Option<ExtBlock>)

  ghost predicate Writable(f: Fields) {
    |f.csrcs| < 16 && (f.ext.Some? ==> |f.ext.value.data| % 4 == 0 && |f.ext.value.data| < 0x4_0000)
  }

  ghost function Words(w: seq<u32>): (b: Bytes)
    ensures |b| == 4 * |w|
  {
    if w == [] then [] else PutU32(w[0]) + Words(w[1..])
  }

  ghost function FirstByte(f: Fields): byte
    requires Writable(f)
  {
    0x80 + (if f.padding then 0x20 else 0) + (if f.ext.Some? then 0x10 else 0) + |f.csrcs|
  }

  ghost function ExtBytes(ext: Option<ExtBlock>): Bytes
    requires ext.Some? ==> |ext.value.data| % 4 == 0 && |ext.value.data| < 0x4_0000
  {
    match ext
    case None => []
    case Some(x) => PutU16(x.profile) + (PutU16(|x.data| / 4) + x.data)
  }

  /** The header as the standard lays it out. */
  ghost function HeaderOf(f: Fields): (h: Bytes)
    requires Writable(f)
    ensures |h| >= HEADER_SIZE
  {
    Header(FirstByte(f), f.payloadType, f.num, f.ts, f.ssrc, f.marker) + (Words(f.csrcs) + ExtBytes(f.ext))
  }

  /** What follows the header, short of valid padding: its last byte counts it, itself included. */
  ghost function Unpadded(padding: bool, rest: Bytes): Bytes {
    if padding && rest != [] && 1 <= rest[|rest| - 1] <= |rest| then rest[..|rest| - rest[|rest| - 1]] else rest
  }

  lemma FirstByteBits(f: Fields)
    requires Writable(f)
    ensures var b := FirstByte(f);
            && Version(b) == 2 && (HasPadding(b) <==> f.padding) && (HasExtension(b) <==> f.ext.Some?)
            && CsrcCount(b) == |f.csrcs|
  {
  }

  lemma {:induction false} WordsRead(p: Bytes, at: nat, w: seq<u32>, i: nat)
    requires i < |w| && Holds(p, at, Words(w))
    ensures at + 4 * i + 4 <= |p| && GetU32(p, at + 4 * i) == w[i]
    decreases i
  {
    hide PutU32, GetU32;
    HoldsSplit(p, at, PutU32(w[0]), Words(w[1..]));
    if i == 0 {
      GetPut32(p, at, w[0]);
    } else {
      WordsRead(p, at + 4, w[1..], i - 1);
    }
  }

  lemma WordsFit(p: Bytes, w: seq<u32>)
    requires Holds(p, HEADER_SIZE, Words(w))
    ensures HEADER_SIZE + |w| * 4 <= |p|
  {
    hide Words;
  }

  lemma CsrcAt(p: Bytes, n: nat, i: nat)
    requires HEADER_SIZE + n * 4 <= |p| && i < n
    ensures Csrcs(p, n)[i] == GetU32(p, HEADER_SIZE + 4 * i)
  {
    hide GetU32;
  }

  lemma CsrcsRead(p: Bytes, w: seq<u32>)
    requires Holds(p, HEADER_SIZE, Words(w))
    ensures HEADER_SIZE + |w| * 4 <= |p| && Csrcs(p, |w|) == w
  {
    hide Words, Csrcs, Holds, GetU32;
    WordsFit(p, w);
    forall i | 0 <= i < |w| ensures Csrcs(p, |w|)[i] == w[i] {
      WordsRead(p, HEADER_SIZE, w, i);
      CsrcAt(p, |w|, i);
    }
  }

  lemma ExtRead(p: Bytes, at: nat, x: ExtBlock)
    requires |x.data| % 4 == 0 && |x.data| < 0x4_0000 && Holds(p, at, ExtBytes(Some(x)))
    ensures at + 4 + |x.data| <= |p| && GetU16(p, at) == x.profile && GetU16(p, at + 2) * 4 == |x.data|
    ensures p[at + 4..at + 4 + |x.data|] == x.data
  {
    hide PutU16, GetU16;
    HoldsSplit(p, at, PutU16(x.profile), PutU16(|x.data| / 4) + x.data);
    HoldsSplit(p, at + 2, PutU16(|x.data| / 4), x.data);
    GetPut16(p, at, x.profile);
    GetPut16(p, at + 2, |x.data| / 4);
  }

  lemma PayloadIs(p: Bytes, h: nat, rest: Bytes)
    requires 0 < h <= |p| && p[h..] == rest
    ensures p[h..PayloadEnd(p, h)] == Unpadded(HasPadding(p[0]), rest)
  {
    hide HasPadding;
    assert |rest| == |p| - h;
    if rest != [] {
      assert p[|p| - 1] == rest[|rest| - 1];
    }
    assert p[h..PayloadEnd(p, h)] == rest[..PayloadEnd(p, h) - h];
  }

  /** Every packet laid out by the standard parses to its fields, with contributing sources, an extension block of
      any profile, and padding that is taken off when valid and left when not. */
  lemma LaidOutParses(f: Fields, rest: Bytes)
    requires Writable(f)
    ensures Parse(HeaderOf(f) + rest) ==
              Some(Packet(f.padding, f.ext.Some?, |f.csrcs|, f.marker, f.payloadType, f.num, f.ts, f.ssrc, f.csrcs,
                          Unpadded(f.padding, rest), |HeaderOf(f)|,
                          if f.ext.Some? && f.ext.value.profile == 0xBEDE
                          then Some(ParseExtensions(f.ext.value.data)) else None))
  {
    hide Header, GetU16, GetU32, Words, ExtBytes, FirstByte, ParseExtensions, Version, HasPadding, HasExtension;
    hide CsrcCount, Csrcs;
    var p, h := HeaderOf(f) + rest, |HeaderOf(f)|;
    var fixed := Header(FirstByte(f), f.payloadType, f.num, f.ts, f.ssrc, f.marker);
    HoldsPrefix(HeaderOf(f), rest);
    HoldsSplit(p, 0, fixed, Words(f.csrcs) + ExtBytes(f.ext));
    HoldsSplit(p, HEADER_SIZE, Words(f.csrcs), ExtBytes(f.ext));
    HeaderReads(p, FirstByte(f), f.payloadType, f.num, f.ts, f.ssrc, f.marker);
    FirstByteBits(f);
    CsrcsRead(p, f.csrcs);
    ExtLength(f.ext);
    if f.ext.Some? {
      ExtRead(p, FixedEnd(p), f.ext.value);
    }
    assert p[h..] == rest;
    assert HeaderEnd(p) == h;
    PayloadIs(p, h, rest);
  }

  lemma ExtLength(ext: Option<ExtBlock>)
    requires ext.Some? ==> |ext.value.data| % 4 == 0 && |ext.value.data| < 0x4_0000
    ensures |ExtBytes(ext)| == if ext.Some? then 4 + |ext.value.data| else 0
  {
  }

  /** An extension that claims more than the packet holds leaves no payload and is not read; an extension bit with
      less than the block's header behind it is ignored. */
  lemma CutExtensionParses(p: Bytes)
    requires |p| >= HEADER_SIZE && Version(p[0]) == 2 && |p| >= FixedEnd(p) && HasExtension(p[0])
    ensures |p| < FixedEnd(p) + 4 ==>
              Parse(p).Some? && Parse(p).value.headerLength == FixedEnd(p) && Parse(p).value.extensions == None
    ensures |p| >= FixedEnd(p) + 4 && FixedEnd(p) + 4 + GetU16(p, FixedEnd(p) + 2) * 4 > |p| ==>
              && Parse(p).Some? && Parse(p).value.headerLength == |p| && Parse(p).value.extensions == None
              && Parse(p).value.payload == []
  {
    hide Csrcs, ParseExtensions;
  }

  /** What is too short for its header, or of another version, does not parse. */
  lemma Unparseable(p: Bytes)
    ensures Parse(p).None? <==> |p| < 12 || p[0] / 64 != 2 || |p| < 12 + 4 * (p[0] % 16)
  {
  }

  // ------------------------------------------------------------------
  // Editing the extension block
  // ------------------------------------------------------------------

  datatype Existing = Existing(exts: Exts, len: nat)

  /** A packet is at least as long as its CSRC list. */
  predicate Whole(p: Bytes) {
    |p| >= HEADER_SIZE ==> |p| >= FixedEnd(p)
  }

  /** The extensions and length of the present block, or nothing when the packet is left alone. */
  function Editable(p: Bytes): (e: Option<Existing>)
    ensures e.Some? ==> Sayable(e.value.exts)
  {
    if |p| < HEADER_SIZE then None
    else if !HasExtension(p[0]) then Some(Existing(map[], 0))
    else if |p| < FixedEnd(p) + 4 || GetU16(p, FixedEnd(p)) != PROFILE_ONE_BYTE || |p| < ExtEnd(p) then None
    else
      ReadSayable(p[FixedEnd(p) + 4..ExtEnd(p)], 0, map[]);
      Some(Existing(ParseExtensions(p[FixedEnd(p) + 4..ExtEnd(p)]), ExtEnd(p) - FixedEnd(p)))
  }

  /** The packet with this block in place of the first `len` bytes after the CSRC list. */
  function Splice(p: Bytes, m: Exts, len: nat): Bytes
    requires |p| >= HEADER_SIZE && FixedEnd(p) + len <= |p| && Measured(m)
  {
    [WithExtension(p[0])] + p[1..FixedEnd(p)] + Block(m) + p[FixedEnd(p) + len..]
  }

  datatype Entry = Entry(id: int, data: Bytes)

  predicate Valid(e: Entry) {
    1 <= e.id <= 14 && 1 <= |e.data| <= 16
  }

  function Put(m: Exts, e: Entry): (r: Exts)
    requires Sayable(m)
    ensures Sayable(r)
  {
    if Valid(e) then m[e.id := e.data] else m
  }

  function SetOne(p: Bytes, e: Entry): Bytes
    requires Whole(p)
  {
    if !Valid(e) then p
    else
      match Editable(p)
      case None => p
      case Some(cur) => Splice(p, Put(cur.exts, e), cur.len)
  }

  function Merge(m: Exts, es: seq<Entry>): (r: Exts)
    requires Sayable(m)
    ensures Sayable(r)
    decreases |es|
  {
    if es == [] then m else Merge(Put(m, es[0]), es[1..])
  }

  predicate AnyValid(es: seq<Entry>) {
    exists e :: e in es && Valid(e)
  }

  function SetAll(p: Bytes, es: seq<Entry>): Bytes
    requires Whole(p)
  {
    match Editable(p)
    case None => p
    case Some(cur) =>
      if !AnyValid(es) && !HasExtension(p[0]) then p else Splice(p, Merge(cur.exts, es), cur.len)
  }

  /** One at a time. */
  function Chain(p: Bytes, es: seq<Entry>): Bytes
    requires Whole(p)
    decreases |es|
  {
    if es == [] then p
    else
      SetOneWhole(p, es[0]);
      Chain(SetOne(p, es[0]), es[1..])
  }

  lemma SetOneWhole(p: Bytes, e: Entry)
    requires Whole(p)
    ensures Whole(SetOne(p, e))
  {
    if |p| >= HEADER_SIZE {
      WithExtensionKeeps(p[0]);
    }
  }

  lemma SpliceParts(p: Bytes, m: Exts, len: nat)
    requires |p| >= HEADER_SIZE && FixedEnd(p) + len <= |p| && Measured(m)
    ensures var q, f, b := Splice(p, m, len), FixedEnd(p), |Block(m)|;
            && |q| == f + b + (|p| - f - len)
            && q[0] == WithExtension(p[0]) && q[1..f] == p[1..f]
            && q[f..f + b] == Block(m) && q[f + b..] == p[f + len..]
  {
    hide Block, WithExtension;
  }

  /** The new block is found where it was put, and replacing it again forgets it. */
  lemma SpliceAgain(p: Bytes, m: Exts, n: Exts)
    requires Whole(p) && Editable(p).Some? && Sayable(m) && Measured(n)
    ensures var q := Splice(p, m, Editable(p).value.len);
            && |q| >= HEADER_SIZE && HasExtension(q[0]) && Whole(q)
            && Editable(q) == Some(Existing(m, |Block(m)|))
            && Splice(q, n, |Block(m)|) == Splice(p, n, Editable(p).value.len)
  {
    hide Block, ParseExtensions, GetU16, WithExtension, HasExtension, CsrcCount;
    var len, f := Editable(p).value.len, FixedEnd(p);
    var q := Splice(p, m, len);
    WithExtensionKeeps(p[0]);
    SpliceParts(p, m, len);
    assert FixedEnd(q) == f;
    WithExtensionKeeps(q[0]);
    BlockRoundTrip(m);
    var b := Block(m);
    assert q[f + 4..f + |b|] == q[f..f + |b|][4..] == b[4..];
    SameU16(q, f, b, 0);
    SameU16(q, f + 2, b, 2);
  }

  lemma SameU16(q: Bytes, i: nat, b: Bytes, k: nat)
    requires k <= i && k + 2 <= |b| && i + 2 <= |q| && i - k + |b| <= |q| && q[i - k..i - k + |b|] == b
    ensures GetU16(q, i) == GetU16(b, k)
  {
    assert q[i] == q[i - k..i - k + |b|][k] && q[i + 1] == q[i - k..i - k + |b|][k + 1];
  }

  lemma {:induction false} MergeNone(m: Exts, es: seq<Entry>)
    requires Sayable(m) && !AnyValid(es)
    ensures Merge(m, es) == m
    decreases |es|
  {
    if es != [] {
      assert es[0] in es;
      assert forall e :: e in es[1..] ==> e in es;
      MergeNone(m, es[1..]);
    }
  }

  /** Setting entries one at a time parses and rewrites the block each time, yet ends at one merged block. */
  lemma {:induction false} ChainMerges(p: Bytes, es: seq<Entry>)
    requires Whole(p) && Editable(p).Some?
    ensures Chain(p, es)
         == (if AnyValid(es) then Splice(p, Merge(Editable(p).value.exts, es), Editable(p).value.len) else p)
    decreases |es|
  {
    hide Splice, Editable, Put, Valid;
    if es != [] {
      var m, len := Editable(p).value.exts, Editable(p).value.len;
      var rest := es[1..];
      assert es == [es[0]] + rest;
      SetOneWhole(p, es[0]);
      SetOneIs(p, es[0]);
      if Valid(es[0]) {
        var put := Put(m, es[0]);
        var q := Splice(p, put, len);
        SpliceAgain(p, put, Merge(put, rest));
        ChainMerges(q, rest);
        assert AnyValid(es);
        if !AnyValid(rest) {
          MergeNone(put, rest);
        }
      } else {
        ChainMerges(p, rest);
        assert AnyValid(es) <==> AnyValid(rest);
      }
    }
  }

  lemma SetOneIs(p: Bytes, e: Entry)
    requires Whole(p) && Editable(p).Some?
    ensures |p| >= HEADER_SIZE && FixedEnd(p) + Editable(p).value.len <= |p|
    ensures SetOne(p, e) == if Valid(e) then Splice(p, Put(Editable(p).value.exts, e), Editable(p).value.len) else p
    ensures !Valid(e) ==> Put(Editable(p).value.exts, e) == Editable(p).value.exts
  {
  }

  lemma {:induction false} ChainUntouched(p: Bytes, es: seq<Entry>)
    requires Whole(p) && Editable(p).None?
    ensures Chain(p, es) == p
    decreases |es|
  {
    hide Editable;
    if es != [] {
      SetOneWhole(p, es[0]);
      ChainUntouched(p, es[1..]);
    }
  }

  // ------------------------------------------------------------------
  // One pass against one at a time
  // ------------------------------------------------------------------

  predicate DistinctIds(es: seq<Entry>) {
    forall i, j :: 0 <= i < j < |es| ==> es[i].id != es[j].id
  }

  /** The entry for this id, else what was there. */
  lemma {:induction false} MergeAt(m: Exts, es: seq<Entry>, id: ExtId)
    requires Sayable(m) && DistinctIds(es)
    ensures forall e :: e in es && Valid(e) && e.id == id ==> id in Merge(m, es) && Merge(m, es)[id] == e.data
    ensures (forall e :: e in es && Valid(e) ==> e.id != id) ==>
      (id in Merge(m, es) <==> id in m) && (id in m ==> Merge(m, es)[id] == m[id])
    decreases |es|
  {
    if es != [] {
      var rest := es[1..];
      assert es == [es[0]] + rest;
      assert forall e :: e in rest ==> e.id != es[0].id;
      MergeAt(Put(m, es[0]), rest, id);
    }
  }

  lemma MergeAnyOrder(m: Exts, es: seq<Entry>, fs: seq<Entry>)
    requires Sayable(m) && DistinctIds(es) && DistinctIds(fs)
    requires forall e :: e in es <==> e in fs
    ensures Merge(m, es) == Merge(m, fs)
  {
    hide Merge, DistinctIds, Sayable;
    forall id: ExtId
      ensures id in Merge(m, es) <==> id in Merge(m, fs)
      ensures id in Merge(m, es) ==> Merge(m, es)[id] == Merge(m, fs)[id]
    {
      MergeAt(m, es, id);
      MergeAt(m, fs, id);
      if e :| e in es && Valid(e) && e.id == id {
        assert e in fs;
      }
    }
  }

  /** Several valid extensions in one pass give byte for byte what one at a time gives, in any order. */
  lemma OnePassAnyOrder(p: Bytes, es: seq<Entry>, fs: seq<Entry>)
    requires Whole(p) && DistinctIds(es) && DistinctIds(fs)
    requires (forall e :: e in es <==> e in fs) && AnyValid(es)
    ensures SetAll(p, es) == Chain(p, fs)
  {
    hide Splice, Merge;
    if Editable(p).None? {
      ChainUntouched(p, fs);
    } else {
      MergeAnyOrder(Editable(p).value.exts, es, fs);
      ChainMerges(p, fs);
      var e :| e in es && Valid(e);
      assert e in fs;
    }
  }

  /** The block present is the one the writer would write for its map. */
  predicate Tidy(p: Bytes)
    requires HasBlockToEdit(p)
  {
    p[FixedEnd(p)..ExtEnd(p)] == Block(Editable(p).value.exts)
  }

  predicate HasBlockToEdit(p: Bytes) {
    Editable(p).Some? && HasExtension(p[0])
  }

  /** With the same entries in the same order the two differ in one case only: no entry is valid and there is
      a block, which the single pass rewrites and the chain leaves alone. */
  lemma OnePassExact(p: Bytes, es: seq<Entry>)
    requires Whole(p)
    ensures SetAll(p, es) == Chain(p, es) <==> AnyValid(es) || !HasBlockToEdit(p) || Tidy(p)
  {
    hide Splice, Block, ParseExtensions, Merge;
    if Editable(p).None? {
      ChainUntouched(p, es);
    } else {
      var cur := Editable(p).value;
      ChainMerges(p, es);
      if !AnyValid(es) && HasExtension(p[0]) {
        MergeNone(cur.exts, es);
        SameBlock(p, cur.exts, cur.len);
      }
    }
  }

  lemma SameBlock(p: Bytes, m: Exts, len: nat)
    requires |p| >= HEADER_SIZE && FixedEnd(p) + len <= |p| && Measured(m) && HasExtension(p[0])
    ensures Splice(p, m, len) == p <==> p[FixedEnd(p)..FixedEnd(p) + len] == Block(m)
  {
    hide Block;
    var f, b := FixedEnd(p), Block(m);
    SpliceParts(p, m, len);
    if Splice(p, m, len) == p {
      assert |b| == len;
    }
    if p[f..f + len] == b {
      assert p == [p[0]] + p[1..f] + p[f..f + len] + p[f + len..];
    }
  }

  /** A block with a padding byte in front is rewritten even when nothing is set. */
  lemma NothingSetRewrites()
    ensures var p: Bytes := [0x90, 0] + Zeros(10) + [0xBE, 0xDE, 0, 1, 0, 0x10, 7, 0];
            Whole(p) && HasBlockToEdit(p) && Chain(p, []) == p && SetAll(p, []) != p
  {
    hide Block, ReadFrom;
    var x: Bytes := [0, 0x10, 7, 0];
    var p: Bytes := [0x90, 0] + Zeros(10) + [0xBE, 0xDE, 0, 1, 0, 0x10, 7, 0];
    assert GetU16(p, 12) == 0xBEDE && GetU16(p, 14) == 1 && p[16..20] == x;
    PaddedEntry(x);
    FirstElement(map[1 := [7]]);
    SpliceParts(p, map[1 := [7]], 8);
    var q := SetAll(p, []);
    assert q[16] == q[12..12 + |Block(map[1 := [7]])|][4];
  }

  lemma PaddedEntry(x: Bytes)
    requires x == [0, 0x10, 7, 0]
    ensures ParseExtensions(x) == map[1 := [7]]
  {
    hide ReadFrom;
    assert x[2..3] == [7];
    ReadStep(x, 0, map[]);
    ReadStep(x, 1, map[]);
    ReadStep(x, 3, map[1 := [7]]);
    ReadStep(x, 4, map[1 := [7]]);
  }

  lemma ReadStep(x: Bytes, i: nat, found: Exts)
    ensures i >= |x| ==> ReadFrom(x, i, found) == found
    ensures i < |x| && x[i] == 0 ==> ReadFrom(x, i, found) == ReadFrom(x, i + 1, found)
    ensures i + 2 <= |x| && x[i] == 0x10 ==> ReadFrom(x, i, found) == ReadFrom(x, i + 2, found[1 := x[i + 1..i + 2]])
  {
  }

  lemma FirstElement(m: Exts)
    requires Measured(m) && 0 !in m && 1 in m
    ensures |Block(m)| > 4 && Block(m)[4] == 0x10 + |m[1]| - 1
  {
    hide Elements, Block, PadTo4;
    ElementsStep(m, 0);
    ElementsStep(m, 1);
    BlockIs(m);
  }

  /** Parsing the edited packet gives the old extensions overridden by the new ones; everything else but the
      X bit and the header length stands. */
  lemma EditedParses(p: Bytes, es: seq<Entry>)
    requires Whole(p) && Parse(p).Some? && Editable(p).Some? && AnyValid(es)
    ensures var q := Parse(p).value;
            var m := Merge(if q.extensions.Some? then q.extensions.value else map[], es);
            (Parse(SetAll(p, es))
             == Some(q.(extension := true, extensions := Some(m), headerLength := FixedEnd(p) + |Block(m)|)))
  {
    hide Block, ParseExtensions, Merge, GetU16, GetU32, WithExtension, HasExtension, CsrcCount, HasPadding, Version;
    var cur := Editable(p).value;
    var m, f := Merge(cur.exts, es), FixedEnd(p);
    SpliceParses(p, m);
  }

  /** What the entries ask for under an id: the last one of 1 to 16 bytes, for ids 1 to 14. */
  ghost function Asked(es: seq<Entry>, id: ExtId): Option<Bytes> {
    if es == [] then None
    else
      var later := Asked(es[1..], id);
      if later.None? && es[0].id == id && 1 <= id <= 14 && 1 <= |es[0].data| <= 16 then Some(es[0].data) else later
  }

  ghost predicate AsksNothing(es: seq<Entry>) {
    forall id: ExtId :: Asked(es, id) == None
  }

  /** No extension under `id`, or these bytes. */
  ghost function At(m: Exts, id: ExtId): Option<Bytes> {
    if id in m then Some(m[id]) else None
  }

  lemma {:induction false} MergeAsked(m: Exts, es: seq<Entry>, id: ExtId)
    requires Sayable(m)
    ensures At(Merge(m, es), id) == if Asked(es, id).Some? then Asked(es, id) else At(m, id)
    decreases |es|
  {
    if es != [] {
      MergeAsked(Put(m, es[0]), es[1..], id);
    }
  }

  lemma {:induction false} AsksValid(es: seq<Entry>)
    ensures AsksNothing(es) <==> !AnyValid(es)
  {
    if es != [] {
      var rest := es[1..];
      AsksValid(rest);
      assert es == [es[0]] + rest;
      if Valid(es[0]) {
        var id: ExtId := es[0].id;
        assert Asked(es, id).Some?;
      } else {
        assert forall id: ExtId :: Asked(es, id) == Asked(rest, id);
      }
    }
  }

  /** A packet is left alone when it is too short, when its extension block is of another kind or cut off, and when
      it has none and nothing is asked for. */
  ghost predicate LeftAlone(p: Bytes, es: seq<Entry>) {
    if |p| < 12 then true
    else
      var fixed := 12 + 4 * (p[0] as int % 16);
      if p[0] as int / 16 % 2 == 0 then AsksNothing(es)
      else |p| < fixed + 4 || GetU16(p, fixed) != 0xBEDE || |p| < fixed + 4 + 4 * GetU16(p, fixed + 2)
  }

  /** What setting extensions does to any packet: left alone, or the same packet in which every id has what was asked
      for it last, else what it had. */
  lemma EditRight(p: Bytes, es: seq<Entry>)
    requires Whole(p)
    ensures LeftAlone(p, es) ==> SetAll(p, es) == p
    ensures !LeftAlone(p, es) && Parse(p).Some? ==>
              var before, after := Parse(p).value, Parse(SetAll(p, es));
              var had: Exts := if before.extensions.Some? then before.extensions.value else map[];
              && after.Some? && after.value.extensions.Some?
              && after.value == before.(extension := true, extensions := after.value.extensions,
                                     headerLength := after.value.headerLength)
              && forall id: ExtId :: At(after.value.extensions.value, id) ==
                                     if Asked(es, id).Some? then Asked(es, id) else At(had, id)
  {
    hide Merge, Block, Splice, Parse, LeftAlone, Asked, At, Whole, Editable, Sayable;
    EditBranch(p, es);
    if !LeftAlone(p, es) && Parse(p).Some? {
      var cur := Editable(p).value;
      SpliceParses(p, Merge(cur.exts, es));
      forall id: ExtId
        ensures At(Merge(cur.exts, es), id) == if Asked(es, id).Some? then Asked(es, id) else At(cur.exts, id)
      {
        MergeAsked(cur.exts, es, id);
      }
    }
  }

  lemma EditBranch(p: Bytes, es: seq<Entry>)
    requires Whole(p)
    ensures LeftAlone(p, es) ==> SetAll(p, es) == p
    ensures !LeftAlone(p, es) ==>
              Editable(p).Some? && |p| >= HEADER_SIZE && FixedEnd(p) + Editable(p).value.len <= |p|
              && SetAll(p, es) == Splice(p, Merge(Editable(p).value.exts, es), Editable(p).value.len)
  {
    AsksValid(es);
    hide Merge, Splice, Asked, AsksNothing, AnyValid, ParseExtensions;
  }

  /** Setting one extension, likewise: an entry that asks for nothing changes nothing. */
  lemma EditOneRight(p: Bytes, e: Entry)
    requires Whole(p)
    ensures SetOne(p, e) == if AsksNothing([e]) then p else SetAll(p, [e])
  {
    AsksValid([e]);
    OnePassExact(p, [e]);
    hide SetAll, Editable, Merge, Splice, Tidy;
    assert Chain(p, [e]) == SetOne(p, e);
    assert AnyValid([e]) <==> Valid(e);
  }

  lemma SpliceParses(p: Bytes, m: Exts)
    requires Whole(p) && Parse(p).Some? && Editable(p).Some? && Sayable(m)
    ensures Parse(p).value.extensions == if HasExtension(p[0]) then Some(Editable(p).value.exts) else None
    ensures !HasExtension(p[0]) ==> Editable(p).value.exts == map[]
    ensures Parse(Splice(p, m, Editable(p).value.len))
         == Some(Parse(p).value.(extension := true, extensions := Some(m), headerLength := FixedEnd(p) + |Block(m)|))
  {
    hide Block, ParseExtensions, GetU16, GetU32, WithExtension, HasExtension;
    hide CsrcCount, HasPadding, Version, PayloadEnd, Csrcs, Splice;
    var len, f := Editable(p).value.len, FixedEnd(p);
    var q := Splice(p, m, len);
    SpliceAgain(p, m, m);
    WithExtensionKeeps(p[0]);
    SpliceParts(p, m, len);
    SameFields(p, q, CsrcCount(p[0]));
    assert HeaderEnd(q) == f + |Block(m)| && HeaderEnd(p) == f + len;
    SamePayload(p, q, f + len, f + |Block(m)|);
    assert p[1] == p[1..f][0] && q[1] == q[1..f][0];
  }

  lemma SameFields(p: Bytes, q: Bytes, n: nat)
    requires |p| >= HEADER_SIZE + n * 4 && |q| >= HEADER_SIZE + n * 4
    requires q[1..HEADER_SIZE + n * 4] == p[1..HEADER_SIZE + n * 4]
    ensures GetU16(p, 2) == GetU16(q, 2) && GetU32(p, 4) == GetU32(q, 4) && GetU32(p, 8) == GetU32(q, 8)
    ensures Csrcs(p, n) == Csrcs(q, n)
  {
    var f := HEADER_SIZE + n * 4;
    forall i | 1 <= i < f ensures q[i] == p[i] {
      assert q[i] == q[1..f][i - 1] && p[i] == p[1..f][i - 1];
    }
    assert forall i :: 0 <= i < n ==> GetU32(p, HEADER_SIZE + i * 4) == GetU32(q, HEADER_SIZE + i * 4);
  }

  lemma SamePayload(p: Bytes, q: Bytes, e: nat, h: nat)
    requires 0 < e <= |p| && 0 < h <= |q| && p[e..] == q[h..] && HasPadding(p[0]) == HasPadding(q[0])
    ensures p[e..PayloadEnd(p, e)] == q[h..PayloadEnd(q, h)]
  {
    assert |p| - e == |p[e..]| == |q[h..]| == |q| - h;
    if |p| > e {
      assert p[|p| - 1] == p[e..][|p| - 1 - e] && q[|q| - 1] == q[h..][|q| - 1 - h];
    }
    var n := PayloadEnd(p, e) - e;
    assert p[e..PayloadEnd(p, e)] == p[e..][..n] && q[h..PayloadEnd(q, h)] == q[h..][..n];
  }

  // ------------------------------------------------------------------
  // The editors
  // ------------------------------------------------------------------

  /** The edit both editors end with: one new buffer, filled in three copies. */
  method Rebuild(p: Bytes, m: Exts, len: nat) returns (out: Bytes)
    requires |p| >= HEADER_SIZE && FixedEnd(p) + len <= |p| && Measured(m)
    ensures out == Splice(p, m, len)
  {
    hide Block, WithExtension, CsrcCount;
    var written := WriteLoop(m);
    var block, f := written.value, FixedEnd(p);
    var payload := p[f + len..];
    var buf := new byte[f + |block| + |payload|];
    Copy(p[..f], buf, 0);
    buf[0] := WithExtension(buf[0]);
    assert buf[..f] == [WithExtension(p[0])] + p[1..f];
    Copy(block, buf, f);
    Copy(payload, buf, f + |block|);
    out := buf[..];
    assert out == buf[..f + |block| + |payload|];
  }

  method SetHeaderExtension(p: Bytes, e: Entry) returns (out: Bytes)
    requires Whole(p)
    ensures out == SetOne(p, e)
  {
    hide ParseExtensions, Splice;
    if |p| < HEADER_SIZE || !Valid(e) {
      return p;
    }
    var exts: Exts, len := map[], 0;
    if HasExtension(p[0]) {
      if |p| < FixedEnd(p) + 4 || GetU16(p, FixedEnd(p)) != PROFILE_ONE_BYTE || |p| < ExtEnd(p) {
        return p;
      }
      len := ExtEnd(p) - FixedEnd(p);
      exts := ParseLoop(p[FixedEnd(p) + 4..FixedEnd(p) + len]);
    }
    assert Editable(p) == Some(Existing(exts, len));
    exts := exts[e.id := e.data];
    out := Rebuild(p, exts, len);
  }

  method SetHeaderExtensions(p: Bytes, es: seq<Entry>) returns (out: Bytes)
    requires Whole(p)
    ensures out == SetAll(p, es)
  {
    hide ParseExtensions, Splice;
    if |p| < HEADER_SIZE {
      return p;
    }
    var exts: Exts, len := map[], 0;
    if HasExtension(p[0]) {
      if |p| < FixedEnd(p) + 4 || GetU16(p, FixedEnd(p)) != PROFILE_ONE_BYTE || |p| < ExtEnd(p) {
        return p;
      }
      len := ExtEnd(p) - FixedEnd(p);
      exts := ParseLoop(p[FixedEnd(p) + 4..FixedEnd(p) + len]);
    }
    ghost var cur := exts;
    assert Editable(p) == Some(Existing(cur, len));
    var added := 0;
    assert es[0..] == es;
    for i := 0 to |es|
      invariant Sayable(exts) && Merge(exts, es[i..]) == Merge(cur, es)
      invariant added >= 0 && (added > 0 <==> AnyValid(es[..i]))
    {
      assert es[i..][1..] == es[i + 1..] && es[..i + 1] == es[..i] + [es[i]];
      if !Valid(es[i]) {
        continue;
      }
      exts := exts[es[i].id := es[i].data];
      added := added + 1;
      assert es[i] in es[..i + 1];
    }
    assert es[..|es|] == es;
    if added == 0 && !HasExtension(p[0]) {
      return p;
    }
    out := Rebuild(p, exts, len);
  }
}
