/**
 Redundant audio coding of src/red.js (RFC 2198): every packet carries copies of the previous frames, and
 the receiver delivers each frame once, in order, from whichever copy comes first.
 */
module RedModel {
  import opened Buffers
  import opened JsMap
  import opened Options
  import opened Wire

  const MAX_TS_OFFSET := 0x3FFF
  const MAX_BLOCK_LEN := 0x3FF
  const TICKS := 0x1_0000_0000

  datatype Frame = Frame(ts: u32, data: Bytes)

  /** A redundant block: how far back its frame lies, and the frame. */
  datatype Block = Block(off: nat, data: Bytes)

  // ------------------------------------------------------------------
  // Packetizer
  // ------------------------------------------------------------------

  /** `(a - b) >>> 0`. */
  function TsDiff(a: u32, b: int): u32 {
    (a - b) % TICKS
  }

  /** The usable blocks among these frames: offset and length must fit their fields. */
  function Usable(frames: seq<Frame>, ts: u32): (blocks: seq<Block>)
    ensures forall i :: 0 <= i < |blocks| ==> blocks[i].off <= MAX_TS_OFFSET && |blocks[i].data| <= MAX_BLOCK_LEN
  {
    if frames == [] then []
    else
      var off := TsDiff(ts, frames[0].ts);
      if off > MAX_TS_OFFSET || |frames[0].data| > MAX_BLOCK_LEN then Usable(frames[1..], ts)
      else [Block(off, frames[0].data)] + Usable(frames[1..], ts)
  }

  type InnerPt = n: int | 0 <= n < 0x80

  function HeaderBytes(b: Block, pt: InnerPt): (h: Bytes)
    requires b.off <= MAX_TS_OFFSET && |b.data| <= MAX_BLOCK_LEN
    ensures |h| == 4
  {
    [0x80 + pt, b.off / 0x40, b.off % 0x40 * 4 + |b.data| / 0x100, |b.data| % 0x100]
  }

  ghost predicate Fits(blocks: seq<Block>) {
    forall i :: 0 <= i < |blocks| ==> blocks[i].off <= MAX_TS_OFFSET && |blocks[i].data| <= MAX_BLOCK_LEN
  }

  function Headers(blocks: seq<Block>, pt: InnerPt): Bytes
    requires Fits(blocks)
  {
    if blocks == [] then [pt] else HeaderBytes(blocks[0], pt) + Headers(blocks[1..], pt)
  }

  function Bodies(blocks: seq<Block>, primary: Bytes): Bytes {
    if blocks == [] then primary else blocks[0].data + Bodies(blocks[1..], primary)
  }

  function Payload(blocks: seq<Block>, primary: Bytes, pt: InnerPt): Bytes
    requires Fits(blocks)
  {
    Headers(blocks, pt) + Bodies(blocks, primary)
  }

  /** The newest `n` entries. */
  function Newest<T>(s: seq<T>, n: nat): seq<T> {
    if |s| <= n then s else s[|s| - n..]
  }

  function Kept(redundancy: nat): nat {
    if redundancy > 1 then redundancy else 1
  }

  /** What leaves for a frame when these frames went before, and what is remembered. */
  function PacketFor(history: seq<Frame>, f: Frame, redundancy: nat, pt: InnerPt): Bytes {
    Payload(Usable(Newest(history, redundancy), f.ts), f.data, pt)
  }

  // ------------------------------------------------------------------
  // Parsing
  // ------------------------------------------------------------------

  /** `len` is unused in the primary header. */
  datatype Header = Header(pt: InnerPt, tsOffset: nat, len: nat, isPrimary: bool)

  datatype HeaderList = HeaderList(headers: seq<Header>, end: nat)

  function ReadHeader(p: Bytes, o: nat): Header
    requires o + 4 <= |p|
  {
    Header(p[o] % 0x80, (p[o + 1] as int) * 0x40 + p[o + 2] / 4, (p[o + 2] as int) % 4 * 0x100 + p[o + 3], false)
  }

  function AfterHeaders(headers: seq<Header>, rest: Option<HeaderList>): Option<HeaderList> {
    match rest
    case None => None
    case Some(list) => Some(HeaderList(headers + list.headers, list.end))
  }

  function AfterBodies(blocks: seq<Parsed>, rest: Option<seq<Parsed>>): Option<seq<Parsed>> {
    match rest
    case None => None
    case Some(more) => Some(blocks + more)
  }

  /** Redundant headers, 4 bytes each, up to the primary one. */
  function ReadHeaders(p: Bytes, o: nat): Option<HeaderList>
    decreases |p| - o
  {
    if o >= |p| then None
    else if p[o] < 0x80 then Some(HeaderList([Header(p[o], 0, 0, true)], o + 1))
    else if o + 4 > |p| then None
    else
      AfterHeaders([ReadHeader(p, o)], ReadHeaders(p, o + 4))
  }

  datatype Parsed = Parsed(pt: InnerPt, tsOffset: nat, data: Bytes, isPrimary: bool)

  /** Bodies in header order; the primary takes the remainder, and nothing may be left over. */
  function ReadBodies(p: Bytes, o: nat, headers: seq<Header>): Option<seq<Parsed>>
    requires o <= |p|
    decreases |headers|
  {
    if headers == [] then if o == |p| then Some([]) else None
    else
      var h := headers[0];
      var len := if h.isPrimary then |p| - o else h.len;
      if o + len > |p| then None
      else
        AfterBodies([Parsed(h.pt, h.tsOffset, p[o..o + len], h.isPrimary)], ReadBodies(p, o + len, headers[1..]))
  }

  function ParseRed(p: Bytes): Option<seq<Parsed>> {
    match ReadHeaders(p, 0)
    case None => None
    case Some(list) =>
      HeadersEnd(p, 0);
      ReadBodies(p, list.end, list.headers)
  }

  lemma {:induction false} HeadersEnd(p: Bytes, o: nat)
    ensures ReadHeaders(p, o).Some? ==> o < ReadHeaders(p, o).value.end <= |p|
    decreases |p| - o
  {
    if o < |p| && p[o] >= 0x80 && o + 4 <= |p| {
      HeadersEnd(p, o + 4);
    }
  }

  // ------------------------------------------------------------------
  // Round trip
  // ------------------------------------------------------------------

  function AsHeaders(blocks: seq<Block>, pt: InnerPt): seq<Header> {
    if blocks == [] then [Header(pt, 0, 0, true)]
    else [Header(pt, blocks[0].off, |blocks[0].data|, false)] + AsHeaders(blocks[1..], pt)
  }

  function AsParsed(blocks: seq<Block>, primary: Bytes, pt: InnerPt): seq<Parsed> {
    if blocks == [] then [Parsed(pt, 0, primary, true)]
    else [Parsed(pt, blocks[0].off, blocks[0].data, false)] + AsParsed(blocks[1..], primary, pt)
  }

  lemma HeaderReads(p: Bytes, o: nat, b: Block, pt: InnerPt)
    requires b.off <= MAX_TS_OFFSET && |b.data| <= MAX_BLOCK_LEN && Holds(p, o, HeaderBytes(b, pt))
    ensures p[o] >= 0x80 && ReadHeader(p, o) == Header(pt, b.off, |b.data|, false)
  {
    var h := HeaderBytes(b, pt);
    assert p[o] == p[o..o + 4][0] && p[o + 1] == p[o..o + 4][1];
    assert p[o + 2] == p[o..o + 4][2] && p[o + 3] == p[o..o + 4][3];
    var low, len := b.off % 0x40, |b.data|;
    assert (low * 4 + len / 0x100) / 4 == low && (low * 4 + len / 0x100) % 4 == len / 0x100;
  }

  lemma {:induction false} HeadersRoundTrip(p: Bytes, o: nat, blocks: seq<Block>, pt: InnerPt)
    requires Fits(blocks) && Holds(p, o, Headers(blocks, pt))
    ensures ReadHeaders(p, o) == Some(HeaderList(AsHeaders(blocks, pt), o + |Headers(blocks, pt)|))
    decreases |blocks|
  {
    hide HeaderBytes, ReadHeader;
    if blocks == [] {
      assert p[o] == p[o..o + 1][0];
    } else {
      HoldsSplit(p, o, HeaderBytes(blocks[0], pt), Headers(blocks[1..], pt));
      HeaderReads(p, o, blocks[0], pt);
      HeadersRoundTrip(p, o + 4, blocks[1..], pt);
    }
  }

  lemma {:induction false} BodiesRoundTrip(p: Bytes, o: nat, blocks: seq<Block>, primary: Bytes, pt: InnerPt)
    requires Holds(p, o, Bodies(blocks, primary)) && o + |Bodies(blocks, primary)| == |p|
    ensures ReadBodies(p, o, AsHeaders(blocks, pt)) == Some(AsParsed(blocks, primary, pt))
    decreases |blocks|
  {
    if blocks == [] {
      var hs := AsHeaders(blocks, pt);
      assert hs[1..] == [] && p[o..o + (|p| - o)] == primary;
      assert ReadBodies(p, |p|, hs[1..]) == Some([]);
      assert ReadBodies(p, o, hs) == Some([Parsed(pt, 0, primary, true)] + []);
      assert AsParsed(blocks, primary, pt) == [Parsed(pt, 0, primary, true)] + [];
    } else {
      HoldsSplit(p, o, blocks[0].data, Bodies(blocks[1..], primary));
      BodiesRoundTrip(p, o + |blocks[0].data|, blocks[1..], primary, pt);
      assert AsHeaders(blocks, pt)[1..] == AsHeaders(blocks[1..], pt);
    }
  }

  /** Parsing a built payload gives back every block and the primary frame. */
  lemma PayloadRoundTrip(blocks: seq<Block>, primary: Bytes, pt: InnerPt)
    requires Fits(blocks)
    ensures ParseRed(Payload(blocks, primary, pt)) == Some(AsParsed(blocks, primary, pt))
  {
    var p := Payload(blocks, primary, pt);
    HoldsPrefix(p, []);
    assert p + [] == p;
    HoldsSplit(p, 0, Headers(blocks, pt), Bodies(blocks, primary));
    HeadersRoundTrip(p, 0, blocks, pt);
    BodiesRoundTrip(p, |Headers(blocks, pt)|, blocks, primary, pt);
  }

  // ------------------------------------------------------------------
  // Any payload
  // ------------------------------------------------------------------

  /** A redundant header as one word: a bit that another follows, 7 bits of type, 14 of offset, 10 of length. */
  ghost function HeaderWord(h: Header): (w: u32)
    requires h.tsOffset < 0x4000 && h.len < 0x400
  {
    0x8000_0000 + h.pt * 0x100_0000 + h.tsOffset * 0x400 + h.len
  }

  /** Redundant headers, then the primary one. */
  ghost predicate Heads(hs: seq<Header>) {
    if |hs| <= 1 then |hs| == 1 && hs[0] == Header(hs[0].pt, 0, 0, true)
    else !hs[0].isPrimary && hs[0].tsOffset < 0x4000 && hs[0].len < 0x400 && Heads(hs[1..])
  }

  ghost function HeadBytes(hs: seq<Header>): Bytes
    requires Heads(hs)
  {
    if |hs| == 1 then [hs[0].pt] else PutU32(HeaderWord(hs[0])) + HeadBytes(hs[1..])
  }

  /** The blocks of these headers; the primary one may have any length. */
  ghost predicate HaveHeads(list: seq<Parsed>, hs: seq<Header>) {
    && |list| == |hs|
    && forall i :: 0 <= i < |list| ==>
         && list[i].pt == hs[i].pt && list[i].tsOffset == hs[i].tsOffset && list[i].isPrimary == hs[i].isPrimary
         && (!hs[i].isPrimary ==> |list[i].data| == hs[i].len)
  }

  ghost function Datas(list: seq<Parsed>): Bytes {
    if list == [] then [] else list[0].data + Datas(list[1..])
  }

  lemma WordBytes(h: Header)
    requires h.tsOffset < 0x4000 && h.len < 0x400
    ensures PutU32(HeaderWord(h)) ==
              [0x80 + h.pt, h.tsOffset / 0x40, h.tsOffset % 0x40 * 4 + h.len / 0x100, h.len % 0x100]
  {
    var w, high, low := HeaderWord(h), h.tsOffset / 0x40, h.tsOffset % 0x40;
    assert w == (0x8000 + h.pt * 0x100 + high) * 0x1_0000 + low * 0x400 + h.len;
    assert w / 0x1_0000 == 0x8000 + h.pt * 0x100 + high && w % 0x1_0000 == low * 0x400 + h.len;
    assert (0x8000 + h.pt * 0x100 + high) / 0x100 == 0x80 + h.pt;
    assert (low * 0x400 + h.len) / 0x100 == low * 4 + h.len / 0x100;
  }

  lemma WordReads(p: Bytes, o: nat)
    requires o + 4 <= |p| && p[o] >= 0x80
    ensures var h := ReadHeader(p, o);
            !h.isPrimary && h.tsOffset < 0x4000 && h.len < 0x400 && p[o..o + 4] == PutU32(HeaderWord(h))
  {
    var h := ReadHeader(p, o);
    OffsetAndLength(p[o + 1], p[o + 2], p[o + 3]);
    WordBytes(h);
    hide PutU32, HeaderWord;
    assert p[o..o + 4] == [p[o], p[o + 1], p[o + 2], p[o + 3]];
  }

  lemma OffsetAndLength(a: byte, b: byte, c: byte)
    ensures var off, len := a as int * 0x40 + b / 4, b as int % 4 * 0x100 + c;
            && 0 <= off < 0x4000 && 0 <= len < 0x400
            && off / 0x40 == a && off % 0x40 * 4 + len / 0x100 == b && len % 0x100 == c
  {
    var off, len := a as int * 0x40 + b / 4, b as int % 4 * 0x100 + c;
    assert off % 0x40 == b / 4 && len / 0x100 == b as int % 4;
  }

  lemma WordRead(p: Bytes, o: nat, h: Header)
    requires h.tsOffset < 0x4000 && h.len < 0x400 && !h.isPrimary && Holds(p, o, PutU32(HeaderWord(h)))
    ensures o + 4 <= |p| && p[o] >= 0x80 && ReadHeader(p, o) == h
  {
    WordBytes(h);
    hide PutU32, HeaderWord;
    var x := p[o..o + 4];
    assert p[o] == x[0] && p[o + 1] == x[1] && p[o + 2] == x[2] && p[o + 3] == x[3];
    var low := h.tsOffset % 0x40;
    assert (low * 4 + h.len / 0x100) / 4 == low && (low * 4 + h.len / 0x100) % 4 == h.len / 0x100;
  }

  lemma {:induction false} HeadsWritten(p: Bytes, o: nat)
    requires ReadHeaders(p, o).Some?
    ensures var list := ReadHeaders(p, o).value;
            Heads(list.headers) && o < list.end <= |p| && p[o..list.end] == HeadBytes(list.headers)
    decreases |p| - o
  {
    hide ReadHeader, PutU32, HeaderWord;
    if p[o] >= 0x80 {
      WordReads(p, o);
      HeadsWritten(p, o + 4);
      var rest := ReadHeaders(p, o + 4).value;
      var hs := ReadHeaders(p, o).value.headers;
      assert hs[1..] == rest.headers;
      assert p[o..rest.end] == p[o..o + 4] + p[o + 4..rest.end];
    }
  }

  lemma {:induction false} HeadsRead(p: Bytes, o: nat, hs: seq<Header>)
    requires Heads(hs) && Holds(p, o, HeadBytes(hs))
    ensures ReadHeaders(p, o) == Some(HeaderList(hs, o + |HeadBytes(hs)|))
    decreases |hs|
  {
    hide ReadHeader, HeaderWord;
    if |hs| == 1 {
      assert p[o] == p[o..o + 1][0];
      assert hs == [Header(hs[0].pt, 0, 0, true)];
    } else {
      HoldsSplit(p, o, PutU32(HeaderWord(hs[0])), HeadBytes(hs[1..]));
      WordRead(p, o, hs[0]);
      HeadsRead(p, o + 4, hs[1..]);
      assert hs == [hs[0]] + hs[1..];
    }
  }

  lemma {:induction false} DatasWritten(p: Bytes, o: nat, hs: seq<Header>)
    requires o <= |p| && ReadBodies(p, o, hs).Some?
    ensures var list := ReadBodies(p, o, hs).value;
            HaveHeads(list, hs) && p[o..] == Datas(list)
    decreases |hs|
  {
    if hs != [] {
      var len := if hs[0].isPrimary then |p| - o else hs[0].len;
      DatasWritten(p, o + len, hs[1..]);
      var list, rest := ReadBodies(p, o, hs).value, ReadBodies(p, o + len, hs[1..]).value;
      assert list[1..] == rest;
      assert p[o..] == p[o..o + len] + p[o + len..];
    }
  }

  lemma {:induction false} DatasRead(p: Bytes, o: nat, list: seq<Parsed>, hs: seq<Header>)
    requires o <= |p| && Heads(hs) && HaveHeads(list, hs) && p[o..] == Datas(list)
    ensures ReadBodies(p, o, hs) == Some(list)
    decreases |hs|
  {
    var data, rest := list[0].data, list[1..];
    assert p[o..o + |data|] == p[o..][..|data|] == data;
    assert p[o + |data|..] == p[o..][|data|..] == Datas(rest);
    assert list == [list[0]] + rest;
    if |hs| == 1 {
      assert Datas(rest) == [];
      assert ReadBodies(p, |p|, hs[1..]) == Some([]);
    } else {
      DatasRead(p, o + |data|, rest, hs[1..]);
    }
  }

  /** Every payload: it reads as these blocks exactly when it is their headers and then their bytes. */
  lemma PayloadRead(p: Bytes, list: seq<Parsed>)
    ensures ParseRed(p) == Some(list) <==>
            exists hs :: Heads(hs) && HaveHeads(list, hs) && p == HeadBytes(hs) + Datas(list)
  {
    hide ReadHeaders, ReadBodies, HeadBytes, Datas, Heads, HaveHeads;
    if ParseRed(p) == Some(list) {
      HeadsWritten(p, 0);
      var heads := ReadHeaders(p, 0).value;
      DatasWritten(p, heads.end, heads.headers);
      assert p == p[0..heads.end] + p[heads.end..];
    }
    if hs :| Heads(hs) && HaveHeads(list, hs) && p == HeadBytes(hs) + Datas(list) {
      HoldsPrefix(HeadBytes(hs), Datas(list));
      HeadsRead(p, 0, hs);
      HeadersEnd(p, 0);
      DatasRead(p, |HeadBytes(hs)|, list, hs);
    }
  }

  // ------------------------------------------------------------------
  // Depacketizer
  // ------------------------------------------------------------------

  type Seen = Map<u32, bool>

  /** A frame handed on: its timestamp and bytes, and whether it is the packet's own. */
  datatype Output = Output(ts: u32, pt: InnerPt, data: Bytes, isPrimary: bool)

  /** `(a - b) | 0` on 32-bit timestamps. */
  function SignedDiff(a: u32, b: u32): int {
    var d := TsDiff(a, b);
    if d >= 0x8000_0000 then d - TICKS else d
  }

  /** Blocks not delivered before, with their timestamps. */
  function NotSeen(seen: Seen, ts: u32, blocks: seq<Parsed>): seq<Output> {
    if blocks == [] then []
    else
      var t := TsDiff(ts, blocks[0].tsOffset);
      (if seen.Has(t) then [] else [Output(t, blocks[0].pt, blocks[0].data, blocks[0].isPrimary)])
      + NotSeen(seen, ts, blocks[1..])
  }

  lemma NotSeenStep(seen: Seen, ts: u32, blocks: seq<Parsed>, i: nat)
    requires i < |blocks|
    ensures var b, rest := blocks[i], NotSeen(seen, ts, blocks[i + 1..]);
            var t := TsDiff(ts, b.tsOffset);
            NotSeen(seen, ts, blocks[i..]) ==
              if seen.Has(t) then rest else [Output(t, b.pt, b.data, b.isPrimary)] + rest
  {
    hide TsDiff;
    assert blocks[i..][1..] == blocks[i + 1..];
    var rest := NotSeen(seen, ts, blocks[i + 1..]);
    assert [] + rest == rest;
  }

  lemma NotSeenEnd(seen: Seen, ts: u32, blocks: seq<Parsed>)
    ensures NotSeen(seen, ts, blocks[|blocks|..]) == []
  {
  }

  /** The result of the stable sort by signed timestamp difference. */
  function InsertByTs(a: Output, s: seq<Output>): seq<Output> {
    if s == [] || SignedDiff(a.ts, s[0].ts) <= 0 then [a] + s else [s[0]] + InsertByTs(a, s[1..])
  }

  function SortByTs(s: seq<Output>): seq<Output> {
    if s == [] then [] else InsertByTs(s[0], SortByTs(s[1..]))
  }

  /** Remembers a timestamp and forgets the oldest beyond `max`. */
  function Remember(seen: Seen, ts: u32, max: nat): Seen {
    Shrink(seen.Set(ts, true), max)
  }

  function Shrink(seen: Seen, max: nat): Seen
    decreases |seen.keys|
  {
    if |seen.keys| <= max then seen
    else
      WithoutShorter(seen.keys, seen.keys[0]);
      Shrink(seen.Delete(seen.keys[0]), max)
  }

  function RememberAll(seen: Seen, out: seq<Output>, max: nat): Seen
    decreases |out|
  {
    if out == [] then seen else RememberAll(Remember(seen, out[0].ts, max), out[1..], max)
  }

  datatype Step = Step(seen: Seen, out: seq<Output>, ok: bool)

  function Unwrap(seen: Seen, ts: u32, payload: Bytes, max: nat): Step {
    if |payload| < 1 then Step(seen, [], true)
    else
      match ParseRed(payload)
      case None => Step(seen, [], false)
      case Some(blocks) =>
        var out := SortByTs(NotSeen(seen, ts, blocks));
        Step(RememberAll(seen, out, max), out, true)
  }

  // ------------------------------------------------------------------
  // What is delivered of any packet
  // ------------------------------------------------------------------

  /** How far `t` lies behind the packet's own timestamp. */
  ghost function HowOld(ts: u32, t: u32): nat {
    (ts - t) % 0x1_0000_0000
  }

  ghost predicate OldestFirst(s: seq<Output>, ts: u32) {
    forall i, j :: 0 <= i < j < |s| ==> HowOld(ts, s[i].ts) >= HowOld(ts, s[j].ts)
  }

  ghost predicate Near(s: seq<Output>, ts: u32) {
    forall o :: o in s ==> HowOld(ts, o.ts) < 0x4000
  }

  /** Those with timestamp `t`, in order. */
  ghost function OfStamp(s: seq<Output>, t: u32): seq<Output> {
    if s == [] then [] else (if s[0].ts == t then [s[0]] else []) + OfStamp(s[1..], t)
  }

  /** The blocks that stand for timestamp `t`, in the order of the packet. */
  ghost function Standing(blocks: seq<Parsed>, ts: u32, t: u32): seq<Output> {
    if blocks == [] then []
    else
      var b := blocks[0];
      (if b.tsOffset < 0x4000 && b.tsOffset == HowOld(ts, t) then [Output(t, b.pt, b.data, b.isPrimary)] else [])
      + Standing(blocks[1..], ts, t)
  }

  lemma DiffOfBacks(ts: u32, a: u32, b: u32)
    requires HowOld(ts, a) < 0x4000 && HowOld(ts, b) < 0x4000
    ensures SignedDiff(a, b) == HowOld(ts, b) - HowOld(ts, a)
  {
    var x, y := HowOld(ts, a), HowOld(ts, b);
    assert a == (if ts >= x then ts - x else ts - x + 0x1_0000_0000);
    assert b == (if ts >= y then ts - y else ts - y + 0x1_0000_0000);
  }

  lemma BackOfDiff(ts: u32, off: nat, t: u32)
    requires off < 0x4000
    ensures HowOld(ts, TsDiff(ts, off)) == off
    ensures TsDiff(ts, off) == t <==> off == HowOld(ts, t)
  {
    assert TsDiff(ts, off) == if ts >= off then ts - off else ts - off + 0x1_0000_0000;
    assert HowOld(ts, t) == if ts >= t then ts - t else ts - t + 0x1_0000_0000;
  }

  lemma OfStampFirst(a: Output, s: seq<Output>, t: u32)
    ensures OfStamp([a] + s, t) == (if a.ts == t then [a] else []) + OfStamp(s, t)
  {
    assert ([a] + s)[1..] == s;
  }

  lemma {:induction false} InsertKeeps(a: Output, s: seq<Output>, t: u32)
    requires forall o :: o in s && o.ts == a.ts ==> SignedDiff(a.ts, o.ts) <= 0
    ensures OfStamp(InsertByTs(a, s), t) == (if a.ts == t then [a] else []) + OfStamp(s, t)
    decreases |s|
  {
    hide SignedDiff, OfStamp;
    if s == [] || SignedDiff(a.ts, s[0].ts) <= 0 {
      OfStampFirst(a, s, t);
    } else {
      var rest := s[1..];
      InsertKeeps(a, rest, t);
      assert s == [s[0]] + rest && s[0].ts != a.ts;
      OfStampFirst(s[0], rest, t);
      OfStampFirst(s[0], InsertByTs(a, rest), t);
    }
  }

  lemma {:induction false} InsertMembers(a: Output, s: seq<Output>)
    ensures forall o :: o in InsertByTs(a, s) <==> o == a || o in s
    decreases |s|
  {
    hide SignedDiff;
    if s != [] {
      InsertMembers(a, s[1..]);
    }
  }

  lemma Prepended(first: Output, s: seq<Output>, ts: u32)
    requires OldestFirst(s, ts) && forall o :: o in s ==> HowOld(ts, first.ts) >= HowOld(ts, o.ts)
    ensures OldestFirst([first] + s, ts)
  {
    hide HowOld;
    var r := [first] + s;
    forall i, j | 0 <= i < j < |r| ensures HowOld(ts, r[i].ts) >= HowOld(ts, r[j].ts) {
      assert r[j] == s[j - 1] && s[j - 1] in s;
      if i > 0 {
        assert r[i] == s[i - 1];
      }
    }
  }

  lemma {:induction false} InsertOrders(a: Output, s: seq<Output>, ts: u32)
    requires HowOld(ts, a.ts) < 0x4000 && Near(s, ts) && OldestFirst(s, ts)
    ensures OldestFirst(InsertByTs(a, s), ts)
    decreases |s|
  {
    hide SignedDiff, HowOld;
    assert forall o :: o in s ==> exists i :: 0 <= i < |s| && s[i] == o;
    forall o | o in s ensures SignedDiff(a.ts, o.ts) == HowOld(ts, o.ts) - HowOld(ts, a.ts) {
      DiffOfBacks(ts, a.ts, o.ts);
    }
    if s == [] || SignedDiff(a.ts, s[0].ts) <= 0 {
      Prepended(a, s, ts);
    } else {
      InsertOrders(a, s[1..], ts);
      InsertMembers(a, s[1..]);
      Prepended(s[0], InsertByTs(a, s[1..]), ts);
    }
  }

  lemma {:induction false} SortKeepsOrder(s: seq<Output>, ts: u32, t: u32)
    requires Near(s, ts)
    ensures var r := SortByTs(s);
            (forall o :: o in r <==> o in s) && OldestFirst(r, ts) && OfStamp(r, t) == OfStamp(s, t)
  {
    hide HowOld, InsertByTs, SignedDiff;
    if s != [] {
      SortKeepsOrder(s[1..], ts, t);
      var r := SortByTs(s[1..]);
      forall o | o in r && o.ts == s[0].ts ensures SignedDiff(s[0].ts, o.ts) <= 0 {
        DiffOfBacks(ts, o.ts, o.ts);
      }
      InsertKeeps(s[0], r, t);
      InsertMembers(s[0], r);
      InsertOrders(s[0], r, ts);
    }
  }

  lemma {:induction false} NotSeenOf(seen: Seen, ts: u32, blocks: seq<Parsed>, t: u32)
    requires forall i :: 0 <= i < |blocks| ==> blocks[i].tsOffset < 0x4000
    ensures var s := NotSeen(seen, ts, blocks);
            Near(s, ts) && OfStamp(s, t) == if seen.Has(t) then [] else Standing(blocks, ts, t)
  {
    hide HowOld, TsDiff;
    if blocks != [] {
      var b, rest := blocks[0], blocks[1..];
      NotSeenOf(seen, ts, rest, t);
      BackOfDiff(ts, b.tsOffset, t);
      var s := NotSeen(seen, ts, rest);
      var one := Output(TsDiff(ts, b.tsOffset), b.pt, b.data, b.isPrimary);
      assert [] + s == s && ([one] + s)[1..] == s;
    }
  }

  lemma {:induction false} OffsetsFit(list: seq<Parsed>, hs: seq<Header>)
    requires Heads(hs) && HaveHeads(list, hs)
    ensures forall i :: 0 <= i < |list| ==> list[i].tsOffset < 0x4000
    decreases |hs|
  {
    if |hs| > 1 {
      OffsetsFit(list[1..], hs[1..]);
    }
  }

  /** Of every packet that parses, in whatever order its blocks are, the frames not delivered before come out oldest
      first, those of one timestamp in the order of the packet. */
  lemma AnyPacketDelivers(seen: Seen, ts: u32, payload: Bytes, max: nat, t: u32)
    requires ParseRed(payload).Some?
    ensures var step := Unwrap(seen, ts, payload, max);
            && step.ok && OldestFirst(step.out, ts)
            && OfStamp(step.out, t) == if seen.Has(t) then [] else Standing(ParseRed(payload).value, ts, t)
  {
    var blocks := ParseRed(payload).value;
    PayloadRead(payload, blocks);
    var hs :| Heads(hs) && HaveHeads(blocks, hs) && payload == HeadBytes(hs) + Datas(blocks);
    OffsetsFit(blocks, hs);
    assert |HeadBytes(hs)| > 0;
    hide ParseRed, NotSeen, SortByTs, Heads, HaveHeads, RememberAll;
    NotSeenOf(seen, ts, blocks, t);
    SortKeepsOrder(NotSeen(seen, ts, blocks), ts, t);
  }

  /** A payload that does not parse is reported, an empty one is ignored, and neither changes anything. */
  lemma NothingDelivered(seen: Seen, ts: u32, payload: Bytes, max: nat)
    requires ParseRed(payload).None?
    ensures Unwrap(seen, ts, payload, max) == Step(seen, [], payload == [])
  {
  }

  // ------------------------------------------------------------------
  // A stream of frames
  // ------------------------------------------------------------------

  /** Frames at unbounded times; the wire carries the times modulo 2^32. */
  datatype Stream = Stream(times: seq<nat>, data: seq<Bytes>)

  function Stamp(time: nat): u32 {
    time % TICKS
  }

  function FrameAt(s: Stream, i: nat): Frame
    requires i < |s.times| == |s.data|
  {
    Frame(Stamp(s.times[i]), s.data[i])
  }

  function FramesOf(s: Stream, from: nat, to: nat): (f: seq<Frame>)
    requires from <= to <= |s.times| == |s.data|
    ensures |f| == to - from
  {
    seq(to - from, i requires 0 <= i < to - from => FrameAt(s, from + i))
  }

  /** The oldest frame a packet for frame `i` may carry. */
  function Back(i: nat, r: nat): nat {
    if i < r then 0 else i - r
  }

  /** Times increase strictly, a frame and the r before it span at most the 14-bit offset, frames fit the
      10-bit length, and frames the receiver may still remember are less than 2^32 ticks apart. */
  ghost predicate Good(s: Stream, r: nat, max: nat) {
    && |s.times| == |s.data|
    && r <= max && 1 <= max
    && (forall i, j :: 0 <= i < j < |s.times| ==> s.times[i] < s.times[j])
    && (forall i, j :: 0 <= i <= j < |s.times| && j - i <= r ==> s.times[j] - s.times[i] <= MAX_TS_OFFSET)
    && (forall i :: 0 <= i < |s.data| ==> |s.data[i]| <= MAX_BLOCK_LEN)
    && (forall i, j :: 0 <= i <= j < |s.times| && j - i <= r + max ==> s.times[j] - s.times[i] < TICKS)
  }

  /** The packet for frame `i`, sent after the frames before it. */
  function PacketAt(s: Stream, i: nat, r: nat, pt: InnerPt): Bytes
    requires i < |s.times| == |s.data|
  {
    PacketFor(Newest(FramesOf(s, 0, i), Kept(r)), FrameAt(s, i), r, pt)
  }

  lemma Ago(later: nat, earlier: nat)
    requires earlier <= later && later - earlier < TICKS
    ensures TsDiff(Stamp(later), Stamp(earlier)) == later - earlier
    ensures TsDiff(Stamp(later), later - earlier) == Stamp(earlier)
  {
  }

  lemma Apart(later: nat, earlier: nat)
    requires earlier < later && later - earlier < TICKS
    ensures Stamp(earlier) != Stamp(later)
  {
  }

  function BlocksOf(s: Stream, from: nat, i: nat): seq<Block>
    requires from <= i < |s.times| == |s.data| && forall j :: from <= j <= i ==> s.times[j] <= s.times[i]
    decreases i - from
  {
    if from == i then [] else [Block(s.times[i] - s.times[from], s.data[from])] + BlocksOf(s, from + 1, i)
  }

  lemma GoodWindow(s: Stream, r: nat, max: nat)
    requires Good(s, r, max)
    ensures r <= max && |s.times| == |s.data|
  {
  }

  lemma Window(s: Stream, from: nat, i: nat, r: nat, max: nat)
    requires Good(s, r, max) && from <= i < |s.times| && i - from <= r
    ensures forall j :: from <= j <= i ==> s.times[j] <= s.times[i]
    ensures from < i ==> s.times[from] < s.times[i]
    ensures s.times[i] - s.times[from] <= MAX_TS_OFFSET
    ensures |s.times| == |s.data| && |s.data[from]| <= MAX_BLOCK_LEN
  {
  }

  lemma {:induction false} AllUsable(s: Stream, from: nat, i: nat, r: nat, max: nat)
    requires Good(s, r, max) && from <= i < |s.times| && i - from <= r
    ensures forall j :: from <= j <= i ==> s.times[j] <= s.times[i]
    ensures Usable(FramesOf(s, from, i), FrameAt(s, i).ts) == BlocksOf(s, from, i)
    decreases i - from
  {
    hide Good;
    Window(s, from, i, r, max);
    if from < i {
      Ago(s.times[i], s.times[from]);
      var frames := FramesOf(s, from, i);
      assert frames[0] == FrameAt(s, from) && frames[1..] == FramesOf(s, from + 1, i);
      AllUsable(s, from + 1, i, r, max);
    }
  }

  /** What the packet carries: frames `from` to `i`, the last one as primary. */
  function Carried(s: Stream, from: nat, i: nat, pt: InnerPt): seq<Parsed>
    requires from <= i < |s.times| == |s.data| && forall j :: from <= j <= i ==> s.times[j] <= s.times[i]
    decreases i - from
  {
    if from == i then [Parsed(pt, 0, s.data[i], true)]
    else [Parsed(pt, s.times[i] - s.times[from], s.data[from], false)] + Carried(s, from + 1, i, pt)
  }

  lemma {:induction false} CarriedParsed(s: Stream, from: nat, i: nat, pt: InnerPt)
    requires from <= i < |s.times| == |s.data| && forall j :: from <= j <= i ==> s.times[j] <= s.times[i]
    ensures AsParsed(BlocksOf(s, from, i), s.data[i], pt) == Carried(s, from, i, pt)
    decreases i - from
  {
    if from < i {
      CarriedParsed(s, from + 1, i, pt);
      assert BlocksOf(s, from, i)[1..] == BlocksOf(s, from + 1, i);
    }
  }

  /** A packet carries its own frame and the `r` frames before it, whole and with their time offsets. */
  lemma PacketCarries(s: Stream, i: nat, r: nat, pt: InnerPt, max: nat)
    requires Good(s, r, max) && i < |s.times|
    ensures ParseRed(PacketAt(s, i, r, pt)) == Some(Carried(s, Back(i, r), i, pt))
  {
    hide ParseRed, Usable, Payload;
    var from := Back(i, r);
    assert Newest(Newest(FramesOf(s, 0, i), Kept(r)), r) == FramesOf(s, from, i);
    AllUsable(s, from, i, r, max);
    PayloadRoundTrip(BlocksOf(s, from, i), s.data[i], pt);
    CarriedParsed(s, from, i, pt);
  }

  /** The frames that fit the offset and length fields, as their copies parse. */
  ghost function Fitting(frames: seq<Frame>, ts: u32, pt: InnerPt): seq<Parsed> {
    if frames == [] then []
    else
      var f := frames[|frames| - 1];
      var off := (ts - f.ts) % 0x1_0000_0000;
      Fitting(frames[..|frames| - 1], ts, pt)
      + if off <= 16383 && |f.data| <= 1023 then [Parsed(pt, off, f.data, false)] else []
  }

  lemma {:induction false} UsableJoin(a: seq<Frame>, b: seq<Frame>, ts: u32)
    ensures Usable(a + b, ts) == Usable(a, ts) + Usable(b, ts)
    decreases |a|
  {
    if a == [] {
      assert a + b == b;
    } else {
      assert (a + b)[1..] == a[1..] + b;
      UsableJoin(a[1..], b, ts);
    }
  }

  lemma {:induction false} ParsedJoin(a: seq<Block>, b: seq<Block>, primary: Bytes, pt: InnerPt)
    ensures AsParsed(a + b, primary, pt) == Copies(a, pt) + AsParsed(b, primary, pt)
    decreases |a|
  {
    if a == [] {
      assert a + b == b;
    } else {
      assert (a + b)[1..] == a[1..] + b;
      ParsedJoin(a[1..], b, primary, pt);
    }
  }

  ghost function Copies(blocks: seq<Block>, pt: InnerPt): seq<Parsed> {
    seq(|blocks|, i requires 0 <= i < |blocks| => Parsed(pt, blocks[i].off, blocks[i].data, false))
  }

  lemma {:induction false} UsableFits(frames: seq<Frame>, ts: u32, pt: InnerPt)
    ensures Copies(Usable(frames, ts), pt) == Fitting(frames, ts, pt)
    decreases |frames|
  {
    if frames != [] {
      var init, f := frames[..|frames| - 1], frames[|frames| - 1];
      assert frames == init + [f];
      UsableJoin(init, [f], ts);
      UsableFits(init, ts, pt);
      assert [f][1..] == [];
    }
  }

  /** Whatever was sent before: a packet carries, of the newest `redundancy` frames, exactly those that fit, in
      order, each with its offset, and then its own frame. One that does not fit is passed over alone. */
  lemma PacketKeeps(history: seq<Frame>, f: Frame, redundancy: nat, pt: InnerPt)
    ensures var newest := if |history| <= redundancy then history else history[|history| - redundancy..];
            ParseRed(PacketFor(history, f, redundancy, pt)) ==
              Some(Fitting(newest, f.ts, pt) + [Parsed(pt, 0, f.data, true)])
  {
    hide ParseRed, Payload;
    var newest := Newest(history, redundancy);
    var blocks := Usable(newest, f.ts);
    PayloadRoundTrip(blocks, f.data, pt);
    UsableFits(newest, f.ts, pt);
    assert blocks + [] == blocks;
    ParsedJoin(blocks, [], f.data, pt);
  }

  // ------------------------------------------------------------------
  // What the receiver makes of it
  // ------------------------------------------------------------------

  function Stamps(s: Stream, from: nat, to: nat): (t: seq<u32>)
    requires from <= to <= |s.times|
    ensures |t| == to - from
  {
    seq<u32>(to - from, i requires 0 <= i < to - from => Stamp(s.times[from + i]))
  }

  /** Frames `from` to `to - 1` as the packet of frame `i` hands them on. */
  function Outs(s: Stream, from: nat, to: nat, i: nat, pt: InnerPt): (o: seq<Output>)
    requires from <= to <= |s.times| == |s.data|
    ensures |o| == to - from
  {
    seq(to - from, k requires 0 <= k < to - from =>
      Output(Stamp(s.times[from + k]), pt, s.data[from + k], from + k == i))
  }

  function Max(a: nat, b: nat): nat {
    if a < b then b else a
  }

  /** The receiver remembers exactly frames `lo` to `next - 1`, oldest first. */
  ghost predicate Remembers(seen: Seen, s: Stream, lo: nat, next: nat) {
    && lo <= next <= |s.times|
    && seen.Valid()
    && seen.keys == Stamps(s, lo, next)
  }

  /** Among frames less than 2^32 ticks apart, a stamp is remembered exactly when its frame is. */
  lemma RemembersExactly(seen: Seen, s: Stream, lo: nat, next: nat, k: nat, r: nat, max: nat)
    requires Good(s, r, max) && Remembers(seen, s, lo, next) && lo <= k < |s.times|
    requires k - lo <= r + max && next - lo <= r + max
    ensures seen.Has(Stamp(s.times[k])) <==> k < next
  {
    var t: u32 := Stamp(s.times[k]);
    if k < next {
      assert Stamps(s, lo, next)[k - lo] == t;
    } else {
      forall j | 0 <= j < next - lo ensures seen.keys[j] != t {
        Apart(s.times[k], s.times[lo + j]);
      }
    }
  }

  lemma {:induction false} OnlyNew(seen: Seen, s: Stream, lo: nat, next: nat, from: nat, i: nat, pt: InnerPt,
                                   r: nat, max: nat)
    requires Good(s, r, max) && Remembers(seen, s, lo, next)
    requires lo <= from <= i < |s.times| && i - lo <= r + max && next - lo <= r + max
    ensures |s.times| == |s.data| && forall j :: from <= j <= i ==> s.times[j] <= s.times[i]
    ensures Max(from, next) <= i + 1
        ==> NotSeen(seen, Stamp(s.times[i]), Carried(s, from, i, pt)) == Outs(s, Max(from, next), i + 1, i, pt)
    ensures Max(from, next) > i ==> NotSeen(seen, Stamp(s.times[i]), Carried(s, from, i, pt)) == []
    decreases i - from
  {
    hide Good, Remembers;
    Spread(s, from, i, lo, r, max);
    RemembersExactly(seen, s, lo, next, from, r, max);
    Ago(s.times[i], s.times[from]);
    var all := Carried(s, from, i, pt);
    if from == i {
      assert all[1..] == [];
      assert NotSeen(seen, Stamp(s.times[i]), all[1..]) == [];
    } else {
      OnlyNew(seen, s, lo, next, from + 1, i, pt, r, max);
      assert all[1..] == Carried(s, from + 1, i, pt);
    }
  }

  lemma Spread(s: Stream, from: nat, i: nat, lo: nat, r: nat, max: nat)
    requires Good(s, r, max) && lo <= from <= i < |s.times| && i - lo <= r + max
    ensures s.times[from] <= s.times[i] && s.times[i] - s.times[from] < TICKS
    ensures |s.times| == |s.data| && forall j :: from <= j <= i ==> s.times[j] <= s.times[i]
  {
  }

  /** Frames of one packet are already in order, also across the 32-bit wrap. */
  lemma {:induction false} AlreadySorted(s: Stream, from: nat, to: nat, i: nat, pt: InnerPt, r: nat, max: nat)
    requires Good(s, r, max) && |s.times| == |s.data|
    requires from <= to <= |s.times| && to - from <= r + 1
    ensures SortByTs(Outs(s, from, to, i, pt)) == Outs(s, from, to, i, pt)
    decreases |s.times| - from
  {
    hide Good;
    if from < to {
      var o := Outs(s, from, to, i, pt);
      assert o[1..] == Outs(s, from + 1, to, i, pt);
      AlreadySorted(s, from + 1, to, i, pt, r, max);
      if from + 1 < to {
        Window(s, from, from + 1, r, max);
        Behind(s.times[from], s.times[from + 1]);
        assert o[1] == o[1..][0];
      }
    }
  }

  lemma Behind(earlier: nat, later: nat)
    requires earlier < later && later - earlier < 0x8000_0000
    ensures SignedDiff(Stamp(earlier), Stamp(later)) < 0
  {
  }

  lemma AppendKey(seen: Seen, t: u32)
    requires seen.Valid() && !seen.Has(t)
    ensures seen.Set(t, true).Valid() && seen.Set(t, true).keys == seen.keys + [t]
  {
    seen.SetValid(t, true);
  }

  lemma DropFirst(seen: Seen)
    requires seen.Valid() && seen.keys != []
    ensures seen.Delete(seen.keys[0]).Valid() && seen.Delete(seen.keys[0]).keys == seen.keys[1..]
  {
    seen.DeleteValid(seen.keys[0]);
    assert seen.keys[0] !in seen.keys[1..];
    WithoutAbsent(seen.keys[1..], seen.keys[0]);
  }

  lemma StampsGrow(s: Stream, lo: nat, next: nat)
    requires lo <= next < |s.times|
    ensures Stamps(s, lo, next + 1) == Stamps(s, lo, next) + [Stamp(s.times[next])]
    ensures Stamps(s, lo, next + 1)[1..] == Stamps(s, lo + 1, next + 1)
  {
  }

  /** A new stamp goes last, and pushes out the first when the window is full. */
  lemma RememberKeys(seen: Seen, t: u32, max: nat)
    requires seen.Valid() && !seen.Has(t) && |seen.keys| <= max
    ensures Remember(seen, t, max).Valid()
    ensures Remember(seen, t, max).keys == (if |seen.keys| < max then seen.keys + [t] else (seen.keys + [t])[1..])
  {
    hide JsMap.Map.Valid;
    AppendKey(seen, t);
    if |seen.keys| == max {
      var more := seen.Set(t, true);
      DropFirst(more);
      var fewer := more.Delete(more.keys[0]);
      assert Shrink(fewer, max) == fewer;
      assert Shrink(more, max) == Shrink(fewer, max);
    }
  }

  lemma RememberOne(seen: Seen, s: Stream, lo: nat, next: nat, r: nat, max: nat)
    requires Good(s, r, max) && Remembers(seen, s, lo, next) && next < |s.times| && next - lo <= max
    ensures Remembers(Remember(seen, Stamp(s.times[next]), max), s, Max(lo, Back(next + 1, max)), next + 1)
  {
    RemembersExactly(seen, s, lo, next, next, r, max);
    hide Good, Remember, Stamps, Stamp;
    RememberKeys(seen, Stamp(s.times[next]), max);
    StampsGrow(s, lo, next);
  }

  lemma {:induction false} RememberMany(seen: Seen, s: Stream, lo: nat, next: nat, end: nat, i: nat,
                                        pt: InnerPt, r: nat, max: nat)
    requires Good(s, r, max) && Remembers(seen, s, lo, next) && next <= end <= |s.times| && next - lo <= max
    ensures Remembers(RememberAll(seen, Outs(s, next, end, i, pt), max), s, Max(lo, Back(end, max)), end)
    decreases end - next
  {
    hide Good, Remembers, Remember;
    GoodWindow(s, r, max);
    if next == end {
      assert Max(lo, Back(end, max)) == lo;
    } else {
      var o := Outs(s, next, end, i, pt);
      RememberOne(seen, s, lo, next, r, max);
      assert o[1..] == Outs(s, next + 1, end, i, pt);
      RememberMany(Remember(seen, o[0].ts, max), s, Max(lo, Back(next + 1, max)), next + 1, end, i, pt, r, max);
    }
  }

  /** The packet of frame `i` leaves no gap after the frames delivered so far, reaches back to nothing
      before the first of them, and repeats none the receiver has forgotten. */
  predicate Covered(i: nat, first: nat, next: nat, r: nat, max: nat) {
    first <= Back(i, r) <= next && next - Back(i, r) <= max
  }

  /** One packet delivers exactly the frames up to its own that were not delivered before, in order. */
  lemma DeliverOne(seen: Seen, s: Stream, first: nat, next: nat, i: nat, r: nat, pt: InnerPt, max: nat)
    requires Good(s, r, max) && first <= next <= |s.times| && i < |s.times| && Covered(i, first, next, r, max)
    requires Remembers(seen, s, Max(first, Back(next, max)), next)
    ensures var step := Unwrap(seen, Stamp(s.times[i]), PacketAt(s, i, r, pt), max);
            var end := Max(next, i + 1);
            && step.ok
            && step.out == Outs(s, next, end, i, pt)
            && Remembers(step.seen, s, Max(first, Back(end, max)), end)
  {
    hide Remembers, ParseRed, PacketAt, NotSeen, SortByTs, RememberAll;
    var lo, from, end := Max(first, Back(next, max)), Back(i, r), Max(next, i + 1);
    PacketCarries(s, i, r, pt, max);
    PacketNonEmpty(s, i, r, pt);
    OnlyNew(seen, s, lo, next, from, i, pt, r, max);
    GoodWindow(s, r, max);
    assert Outs(s, end, end, i, pt) == [];
    AlreadySorted(s, next, end, i, pt, r, max);
    RememberMany(seen, s, lo, next, end, i, pt, r, max);
    assert Max(lo, Back(end, max)) == Max(first, Back(end, max));
  }

  lemma PacketNonEmpty(s: Stream, i: nat, r: nat, pt: InnerPt)
    requires i < |s.times| == |s.data|
    ensures |PacketAt(s, i, r, pt)| >= 1
  {
    var blocks := Usable(Newest(Newest(FramesOf(s, 0, i), Kept(r)), r), FrameAt(s, i).ts);
    assert |Headers(blocks, pt)| >= 1;
  }

  // ------------------------------------------------------------------
  // Whole runs
  // ------------------------------------------------------------------

  /** What the receiver hands on for the packets of frames `received`, in arrival order. */
  function Delivered(seen: Seen, s: Stream, received: seq<nat>, r: nat, pt: InnerPt, max: nat): seq<Output>
    requires |s.times| == |s.data| && forall k :: 0 <= k < |received| ==> received[k] < |s.times|
    decreases |received|
  {
    if received == [] then []
    else
      var i := received[0];
      var step := Unwrap(seen, Stamp(s.times[i]), PacketAt(s, i, r, pt), max);
      step.out + Delivered(step.seen, s, received[1..], r, pt, max)
  }

  function FramesIn(out: seq<Output>): (f: seq<Frame>)
    ensures |f| == |out|
  {
    seq(|out|, k requires 0 <= k < |out| => Frame(out[k].ts, out[k].data))
  }

  function Reach(received: seq<nat>, next: nat): nat
    decreases |received|
  {
    if received == [] then next else Reach(received[1..], Max(next, received[0] + 1))
  }

  predicate AllCovered(received: seq<nat>, first: nat, next: nat, r: nat, max: nat)
    decreases |received|
  {
    received == []
    || (Covered(received[0], first, next, r, max)
        && AllCovered(received[1..], first, Max(next, received[0] + 1), r, max))
  }

  lemma {:induction false} ReachWithin(received: seq<nat>, next: nat, n: nat)
    requires next <= n && forall k :: 0 <= k < |received| ==> received[k] < n
    ensures next <= Reach(received, next) <= n
    decreases |received|
  {
    if received != [] {
      ReachWithin(received[1..], Max(next, received[0] + 1), n);
    }
  }

  lemma OutsFrames(s: Stream, from: nat, end: nat, i: nat, pt: InnerPt)
    requires from <= end <= |s.times| == |s.data|
    ensures FramesIn(Outs(s, from, end, i, pt)) == FramesOf(s, from, end)
  {
    var o, f := Outs(s, from, end, i, pt), FramesOf(s, from, end);
    forall k | 0 <= k < end - from ensures FramesIn(o)[k] == f[k] {
      assert o[k] == Output(Stamp(s.times[from + k]), pt, s.data[from + k], from + k == i);
      assert f[k] == FrameAt(s, from + k);
    }
  }

  /** Late and repeated packets included: as long as every arrival is covered, the frames handed on are those
      of the stream from `next` on, each exactly once and in order. */
  lemma {:induction false} DeliversInOrder(seen: Seen, s: Stream, received: seq<nat>, first: nat, next: nat,
                                           r: nat, pt: InnerPt, max: nat)
    requires Good(s, r, max) && first <= next <= |s.times|
    requires forall k :: 0 <= k < |received| ==> received[k] < |s.times|
    requires AllCovered(received, first, next, r, max)
    requires Remembers(seen, s, Max(first, Back(next, max)), next)
    ensures next <= Reach(received, next) <= |s.times|
    ensures FramesIn(Delivered(seen, s, received, r, pt, max)) == FramesOf(s, next, Reach(received, next))
    decreases |received|
  {
    hide Good, Remembers, Unwrap, PacketAt;
    GoodWindow(s, r, max);
    ReachWithin(received, next, |s.times|);
    if received != [] {
      var i := received[0];
      var end := Max(next, i + 1);
      DeliverOne(seen, s, first, next, i, r, pt, max);
      var step := Unwrap(seen, Stamp(s.times[i]), PacketAt(s, i, r, pt), max);
      DeliversInOrder(step.seen, s, received[1..], first, end, r, pt, max);
      var rest := Delivered(step.seen, s, received[1..], r, pt, max);
      assert FramesIn(step.out + rest) == FramesIn(step.out) + FramesIn(rest);
      OutsFrames(s, next, end, i, pt);
    }
  }

  /** At most `r` packets in a row are lost, none overtakes another. */
  predicate InOrder(received: seq<nat>, r: nat) {
    forall k :: 0 <= k < |received| - 1 ==> received[k] < received[k + 1] <= received[k] + r + 1
  }

  lemma {:induction false} InOrderCovered(received: seq<nat>, first: nat, next: nat, r: nat, max: nat)
    requires InOrder(received, r) && r <= max
    requires received != [] ==> Covered(received[0], first, next, r, max) && next <= received[0] + 1
    ensures AllCovered(received, first, next, r, max)
    ensures received != [] ==> Reach(received, next) == received[|received| - 1] + 1
    decreases |received|
  {
    if received != [] {
      var rest := received[1..];
      assert forall k :: 0 <= k < |rest| ==> rest[k] == received[k + 1];
      InOrderCovered(rest, first, received[0] + 1, r, max);
    }
  }

  /** With no more than `r` packets in a row lost, every frame from `r` before the first received packet to
      the last received one is delivered exactly once, in timestamp order, across the 32-bit wrap. */
  lemma EveryFrameOnce(s: Stream, received: seq<nat>, r: nat, pt: InnerPt, max: nat)
    requires Good(s, r, max) && received != [] && InOrder(received, r)
    requires forall k :: 0 <= k < |received| ==> received[k] < |s.times|
    ensures Back(received[0], r) <= received[|received| - 1] + 1
    ensures FramesIn(Delivered(Empty(), s, received, r, pt, max))
         == FramesOf(s, Back(received[0], r), received[|received| - 1] + 1)
  {
    hide Good, Unwrap;
    GoodWindow(s, r, max);
    var first := Back(received[0], r);
    assert Max(first, Back(first, max)) == first;
    assert Remembers(Empty(), s, first, first);
    InOrderCovered(received, first, first, r, max);
    DeliversInOrder(Empty(), s, received, first, first, r, pt, max);
  }

  // ------------------------------------------------------------------
  // The two objects
  // ------------------------------------------------------------------

  class REDPacketizer {
    const innerPt: InnerPt
    const redundancy: nat
    var history: seq<Frame>
    var sentFirst: bool
    ghost var sent: seq<Frame>

    ghost predicate Valid()
      reads this
    {
      && history == Newest(sent, Kept(redundancy))
      && (sentFirst <==> sent != [])
    }

    constructor (innerPt: InnerPt, redundancy: nat)
      ensures Valid() && sent == [] && this.innerPt == innerPt && this.redundancy == redundancy
    {
      this.innerPt := innerPt;
      this.redundancy := redundancy;
      history, sentFirst := [], false;
      sent := [];
    }

    /** `_do`: the packet is what the newest frames sent before give; only the first one is marked. */
    method Do(data: Bytes, ts: u32) returns (payload: Bytes, marker: bool)
      requires Valid()
      modifies this
      ensures Valid() && sent == old(sent) + [Frame(ts, data)]
      ensures payload == PacketFor(old(sent), Frame(ts, data), redundancy, innerPt)
      ensures marker <==> old(sent) == []
      ensures |history| <= if redundancy > 1 then redundancy else 1
    {
      hide HeaderBytes, Usable, Payload;
      assert Newest(history, redundancy) == Newest(sent, redundancy);
      var blocks := Select(ts);
      payload := Assemble(blocks, data, innerPt);

      PushHistory(Frame(ts, data));
      sent := sent + [Frame(ts, data)];
      marker := !sentFirst;
      sentFirst := true;
    }

    method PushHistory(f: Frame)
      modifies this`history
      ensures history == Newest(old(history) + [f], Kept(redundancy))
    {
      history := history + [f];
      ghost var pushed := history;
      while |history| > Kept(redundancy)
        invariant Newest(history, Kept(redundancy)) == Newest(pushed, Kept(redundancy))
        decreases |history|
      {
        history := history[1..];
      }
    }

    method Select(ts: u32) returns (blocks: seq<Block>)
      ensures blocks == Usable(Newest(history, redundancy), ts) && Fits(blocks)
    {
      hide TsDiff;
      blocks := [];
      var start := if |history| < redundancy then 0 else |history| - redundancy;
      assert history[start..] == Newest(history, redundancy);
      for i := start to |history|
        invariant blocks + Usable(history[i..], ts) == Usable(history[start..], ts)
      {
        var h := history[i];
        assert history[i..][1..] == history[i + 1..];
        var off := TsDiff(ts, h.ts);
        if off > MAX_TS_OFFSET || |h.data| > MAX_BLOCK_LEN {
          continue;
        }
        ghost var rest := Usable(history[i + 1..], ts);
        assert blocks + ([Block(off, h.data)] + rest) == (blocks + [Block(off, h.data)]) + rest;
        blocks := blocks + [Block(off, h.data)];
      }
      assert history[|history|..] == [] && blocks + [] == blocks;
    }

    /** Headers, then bodies, written into one buffer of the exact size. */
    static method Assemble(blocks: seq<Block>, primary: Bytes, pt: InnerPt) returns (payload: Bytes)
      requires Fits(blocks)
      ensures payload == Payload(blocks, primary, pt)
    {
      hide HeaderBytes, Headers;
      var total := |blocks| * 4 + 1 + |primary|;
      for b := 0 to |blocks|
        invariant total + |Bodies(blocks[b..], primary)| == |blocks| * 4 + 1 + |primary| + |Bodies(blocks, primary)|
      {
        assert blocks[b..][1..] == blocks[b + 1..];
        total := total + |blocks[b].data|;
      }
      assert blocks[|blocks|..] == [];
      HeadersLength(blocks, pt);
      var buf := new byte[total];
      WriteHeaders(buf, blocks, pt);
      WriteBodies(buf, |blocks| * 4 + 1, blocks, primary);
      payload := buf[..];
    }

    static method WriteHeaders(buf: array<byte>, blocks: seq<Block>, pt: InnerPt)
      requires Fits(blocks) && |blocks| * 4 + 1 <= buf.Length
      modifies buf
      ensures buf[..|blocks| * 4 + 1] == Headers(blocks, pt)
    {
      hide HeaderBytes;
      var o := 0;
      for b := 0 to |blocks|
        invariant o == b * 4
        invariant buf[..o] + Headers(blocks[b..], pt) == Headers(blocks, pt)
      {
        assert blocks[b..][1..] == blocks[b + 1..];
        var h := HeaderBytes(blocks[b], pt);
        ghost var before, rest := buf[..o], Headers(blocks[b + 1..], pt);
        Copy(h, buf, o);
        assert (before + h) + rest == before + (h + rest);
        o := o + 4;
      }
      assert blocks[|blocks|..] == [];
      buf[o] := pt;
      assert buf[..o + 1] == buf[..o] + [pt];
    }

    static method WriteBodies(buf: array<byte>, start: nat, blocks: seq<Block>, primary: Bytes)
      requires start + |Bodies(blocks, primary)| == buf.Length
      modifies buf
      ensures buf[..] == old(buf[..start]) + Bodies(blocks, primary)
    {
      var o := start;
      ghost var goal := buf[..start] + Bodies(blocks, primary);
      assert blocks[0..] == blocks;
      for b := 0 to |blocks|
        invariant start <= o <= buf.Length
        invariant o + |Bodies(blocks[b..], primary)| == buf.Length
        invariant buf[..o] + Bodies(blocks[b..], primary) == goal
      {
        assert blocks[b..][1..] == blocks[b + 1..];
        var d := blocks[b].data;
        ghost var before, rest := buf[..o], Bodies(blocks[b + 1..], primary);
        assert Bodies(blocks[b..], primary) == d + rest;
        Copy(d, buf, o);
        assert (before + d) + rest == before + (d + rest);
        o := o + |d|;
      }
      Copy(primary, buf, o);
      assert buf[..] == buf[..o + |primary|];
    }
  }

  lemma {:induction false} HeadersLength(blocks: seq<Block>, pt: InnerPt)
    requires Fits(blocks)
    ensures |Headers(blocks, pt)| == |blocks| * 4 + 1
    decreases |blocks|
  {
    hide HeaderBytes;
    if blocks != [] {
      HeadersLength(blocks[1..], pt);
    }
  }

  class REDDepacketizer {
    var seen: Seen
    const seenMax: nat

    constructor (historySize: nat)
      ensures seen == Empty() && seenMax == if historySize == 0 then 64 else historySize
    {
      seen := Empty();
      seenMax := if historySize == 0 then 64 else historySize;
    }

    /** The frames handed on; `ok` is false when the packet was reported as malformed. */
    method Depacketize(ts: u32, payload: Bytes) returns (out: seq<Output>, ok: bool)
      modifies this
      ensures Step(seen, out, ok) == Unwrap(old(seen), ts, payload, seenMax)
    {
      if |payload| < 1 {
        return [], true;
      }
      var parsed := Parse(payload);
      if parsed.None? {
        return [], false;
      }
      out := Undelivered(ts, parsed.value);
      out := SortByTs(out);
      Note(out);
      ok := true;
    }

    /** The blocks whose timestamps are not remembered. */
    method Undelivered(ts: u32, blocks: seq<Parsed>) returns (out: seq<Output>)
      ensures out == NotSeen(seen, ts, blocks)
    {
      hide NotSeen, TsDiff;
      out := [];
      assert blocks[0..] == blocks;
      for i := 0 to |blocks|
        invariant out + NotSeen(seen, ts, blocks[i..]) == NotSeen(seen, ts, blocks)
      {
        NotSeenStep(seen, ts, blocks, i);
        var blk := blocks[i];
        var t := TsDiff(ts, blk.tsOffset);
        if seen.Has(t) {
          continue;
        }
        var o := Output(t, blk.pt, blk.data, blk.isPrimary);
        ghost var rest := NotSeen(seen, ts, blocks[i + 1..]);
        assert out + ([o] + rest) == (out + [o]) + rest;
        out := out + [o];
      }
      NotSeenEnd(seen, ts, blocks);
    }

    /** Remembers the timestamps handed on, forgetting the oldest beyond the window. */
    method Note(out: seq<Output>)
      modifies this`seen
      ensures seen == RememberAll(old(seen), out, seenMax)
    {
      assert out[0..] == out;
      for j := 0 to |out|
        invariant RememberAll(seen, out[j..], seenMax) == RememberAll(old(seen), out, seenMax)
      {
        assert out[j..][1..] == out[j + 1..];
        seen := seen.Set(out[j].ts, true);
        ghost var full := seen;
        while |seen.keys| > seenMax
          invariant Shrink(seen, seenMax) == Shrink(full, seenMax)
          decreases |seen.keys|
        {
          WithoutShorter(seen.keys, seen.keys[0]);
          seen := seen.Delete(seen.keys[0]);
        }
      }
    }

    /** `_parseRed`: one pass over the headers, one over the bodies. */
    static method Parse(p: Bytes) returns (r: Option<seq<Parsed>>)
      ensures r == ParseRed(p)
    {
      hide ReadHeaders, ReadBodies;
      HeadersEnd(p, 0);
      var list := ParseHeaders(p);
      if list.None? {
        return None;
      }
      r := ParseBodies(p, list.value.end, list.value.headers);
    }

    static method ParseHeaders(p: Bytes) returns (list: Option<HeaderList>)
      ensures list == ReadHeaders(p, 0)
    {
      hide ReadHeader;
      ghost var all := ReadHeaders(p, 0);
      var headers: seq<Header>, o: nat := [], 0;
      assert all.Some? ==> [] + all.value.headers == all.value.headers;
      while true
        invariant o <= |p|
        invariant all == AfterHeaders(headers, ReadHeaders(p, o))
        decreases |p| - o
      {
        if o >= |p| {
          return None;
        }
        if p[o] < 0x80 {
          headers := headers + [Header(p[o], 0, 0, true)];
          o := o + 1;
          break;
        }
        if o + 4 > |p| {
          return None;
        }
        ghost var rest := ReadHeaders(p, o + 4);
        if rest.Some? {
          var h := ReadHeader(p, o);
          assert headers + ([h] + rest.value.headers) == (headers + [h]) + rest.value.headers;
        }
        headers := headers + [ReadHeader(p, o)];
        o := o + 4;
      }
      list := Some(HeaderList(headers, o));
    }

    static method ParseBodies(p: Bytes, start: nat, headers: seq<Header>) returns (r: Option<seq<Parsed>>)
      requires start <= |p|
      ensures r == ReadBodies(p, start, headers)
    {
      ghost var all := ReadBodies(p, start, headers);
      var blocks: seq<Parsed>, o := [], start;
      assert headers[0..] == headers;
      assert all.Some? ==> [] + all.value == all.value;
      for i := 0 to |headers|
        invariant start <= o <= |p|
        invariant all == AfterBodies(blocks, ReadBodies(p, o, headers[i..]))
      {
        var h := headers[i];
        assert headers[i..][1..] == headers[i + 1..];
        var len := if h.isPrimary then |p| - o else h.len;
        if o + len > |p| {
          return None;
        }
        ghost var rest := ReadBodies(p, o + len, headers[i + 1..]);
        var blk := Parsed(h.pt, h.tsOffset, p[o..o + len], h.isPrimary);
        assert rest.Some? ==> blocks + ([blk] + rest.value) == (blocks + [blk]) + rest.value;
        blocks := blocks + [blk];
        o := o + len;
      }
      assert headers[|headers|..] == [];
      if o != |p| {
        return None;
      }
      assert blocks + [] == blocks;
      r := Some(blocks);
    }
  }
}
