/**
 Transport-wide congestion control feedback: `buildTransportCC` of src/rtcp.js and `parseTransportCC` of
 src/bandwidth.js. Packet statuses travel as chunks of three forms, chosen greedily, followed by the
 receive deltas in 250 microsecond units.
 */
module TransportCcModel {
  import opened Bits
  import opened Options
  import opened SeqNum
  import opened Wire

  // ------------------------------------------------------------------
  // Symbols and chunks
  // ------------------------------------------------------------------

  /** 0 not received, 1 small delta, 2 large delta, 3 received without delta. */
  type Symbol = n: int | 0 <= n < 4

  const MAX_RUN := 8191

  /** How many symbols from the start equal the first. */
  function RunLength(symbols: seq<Symbol>): (n: nat)
    requires symbols != []
    ensures 1 <= n <= |symbols|
    ensures forall i :: 0 <= i < n ==> symbols[i] == symbols[0]
  {
    if |symbols| == 1 || symbols[1] != symbols[0] then 1 else 1 + RunLength(symbols[1..])
  }

  function Min(a: nat, b: nat): nat {
    if a < b then a else b
  }

  predicate OneBit(symbols: seq<Symbol>) {
    forall i :: 0 <= i < |symbols| ==> symbols[i] <= 1
  }

  /** What the encoder makes: never "received without delta". */
  ghost predicate Small(symbols: seq<Symbol>) {
    forall i :: 0 <= i < |symbols| ==> symbols[i] <= 2
  }

  function RunChunk(s: Symbol, n: nat): (c: u16)
    requires s <= 2 && n <= MAX_RUN
    ensures c < 0x8000
  {
    s * 0x2000 + n
  }

  function At(symbols: seq<Symbol>, i: nat): Symbol {
    if i < |symbols| then symbols[i] else 0
  }

  function OneBitChunk(symbols: seq<Symbol>): u16 {
    Pack16([true, false] + seq(14, j requires 0 <= j < 14 => At(symbols, j) == 1))
  }

  function TwoBitChunk(symbols: seq<Symbol>): u16 {
    Pack16([true, true] + seq(14, j requires 0 <= j < 14 =>
      if j % 2 == 0 then At(symbols, j / 2) / 2 == 1 else At(symbols, j / 2) % 2 == 1))
  }

  /** The next chunk and how many symbols it takes. */
  datatype Piece = Piece(chunk: u16, taken: nat)

  function NextPiece(symbols: seq<Symbol>): (p: Piece)
    requires symbols != []
    ensures 1 <= p.taken <= |symbols| && (p.taken < 7 ==> p.taken == |symbols|)
  {
    var run := Min(RunLength(symbols), MAX_RUN);
    if symbols[0] <= 2 && run >= 14 then Piece(RunChunk(symbols[0], run), run)
    else
      var look14 := Min(14, |symbols|);
      if OneBit(symbols[..look14]) then Piece(OneBitChunk(symbols[..look14]), look14)
      else
        var look7 := Min(7, |symbols|);
        Piece(TwoBitChunk(symbols[..look7]), look7)
  }

  function Chunks(symbols: seq<Symbol>): seq<u16> {
    if symbols == [] then []
    else
      var p := NextPiece(symbols);
      [p.chunk] + Chunks(symbols[p.taken..])
  }

  /** All symbols a chunk can stand for. */
  function Expand(chunk: u16): seq<Symbol> {
    if chunk < 0x8000 then
      seq(chunk % 0x2000, _ => chunk / 0x2000 % 4)
    else
      var bits := Unpack(chunk, 16);
      if chunk / 0x4000 % 2 == 0 then
        seq(14, j requires 0 <= j < 14 => if bits[2 + j] then 1 else 0)
      else
        seq(7, j requires 0 <= j < 7 => (if bits[2 + 2 * j] then 2 else 0) + if bits[3 + 2 * j] then 1 else 0)
  }

  /** The three forms of section 3.1 of the transport-wide congestion control draft, bit by bit, for a chunk of any
      sender: a run of one symbol; fourteen one-bit symbols; seven two-bit symbols. */
  lemma ExpandExact(chunk: u16, j: nat)
    requires j < |Expand(chunk)|
    ensures var e := Expand(chunk);
            if chunk < 0x8000 then |e| == chunk % 0x2000 && e[j] == chunk / 0x2000
            else if chunk < 0xC000 then |e| == 14 && e[j] == if Bit(chunk, 13 - j) then 1 else 0
            else |e| == 7 && e[j] == (if Bit(chunk, 13 - 2 * j) then 2 else 0) + if Bit(chunk, 12 - 2 * j) then 1 else 0
  {
    hide Bit;
    if chunk >= 0x8000 {
      WhichVector(chunk);
      var bits := Unpack(chunk, 16);
      UnpackAt(chunk, 2 + if chunk >= 0xC000 then 2 * j else j);
      UnpackAt(chunk, 3 + if chunk >= 0xC000 then 2 * j else 0);
      hide Unpack;
    }
  }

  lemma WhichVector(chunk: u16)
    ensures chunk >= 0x8000 ==> (chunk / 0x4000 % 2 == 0 <==> chunk < 0xC000)
    ensures 0x8000 <= chunk < 0xC000 ==> |Expand(chunk)| == 14
    ensures 0xC000 <= chunk ==> |Expand(chunk)| == 7
  {
  }

  lemma UnpackAt(w: nat, k: nat)
    requires k < 16
    ensures |Unpack(w, 16)| == 16 && Unpack(w, 16)[k] == Bit(w, 15 - k)
  {
    hide Bit;
  }

  /** Which form the encoder takes: a run when fourteen or more symbols are alike, up to 8191 of them; else fourteen
      symbols at once when none needs two bits; else seven. */
  lemma PieceTakes(symbols: seq<Symbol>)
    requires symbols != [] && Small(symbols)
    ensures var p := NextPiece(symbols);
            var alike := |symbols| >= 14 && forall i :: 0 <= i < 14 ==> symbols[i] == symbols[0];
            var narrow := forall i :: 0 <= i < 14 && i < |symbols| ==> symbols[i] <= 1;
            if alike then
              && p.chunk < 0x8000 && 14 <= p.taken <= 8191
              && (forall i :: 0 <= i < p.taken ==> symbols[i] == symbols[0])
              && (p.taken == 8191 || p.taken == |symbols| || symbols[p.taken] != symbols[0])
            else if narrow then
              0x8000 <= p.chunk < 0xC000 && p.taken == if |symbols| < 14 then |symbols| else 14
            else
              p.chunk >= 0xC000 && p.taken == if |symbols| < 7 then |symbols| else 7
  {
    var n := RunLength(symbols);
    RunEnds(symbols);
    hide Unpack, Pack, RunLength;
    var look14, look7 := Min(14, |symbols|), Min(7, |symbols|);
    var one := seq(14, j requires 0 <= j < 14 => At(symbols[..look14], j) == 1);
    VectorChunk(false, one);
    var two := symbols[..look7];
    var bits := seq(14, j requires 0 <= j < 14 =>
      if j % 2 == 0 then At(two, j / 2) / 2 == 1 else At(two, j / 2) % 2 == 1);
    VectorChunk(true, bits);
  }

  lemma {:induction false} RunEnds(symbols: seq<Symbol>)
    requires symbols != []
    ensures var n := RunLength(symbols); n < |symbols| ==> symbols[n] != symbols[0]
  {
    if |symbols| > 1 && symbols[1] == symbols[0] {
      RunEnds(symbols[1..]);
    }
  }

  lemma VectorChunk(long: bool, bits: seq<bool>)
    requires |bits| == 14
    ensures var c := Pack16([true, long] + bits);
            && c >= 0x8000 && c / 0x4000 % 2 == (if long then 1 else 0)
            && Unpack(c, 16) == [true, long] + bits
  {
    hide Pack, Unpack, Pow2;
    var all := [true, long] + bits;
    PackTop(all);
    assert all[1..] == [long] + bits;
    PackTop(all[1..]);
    assert all[1..][1..] == bits;
    Pow2Words();
    Pow2Twice(14);
    Pow2Twice(15);
    UnpackPack(all);
  }

  /** Whatever form is chosen, the chunk stands for the symbols it took, and for nothing received in places left. */
  lemma PieceExpands(symbols: seq<Symbol>)
    requires symbols != [] && Small(symbols)
    ensures var p := NextPiece(symbols);
            var e := Expand(p.chunk);
            && p.taken <= |e| && e[..p.taken] == symbols[..p.taken] && (p.taken < |symbols| ==> |e| == p.taken)
            && forall j :: p.taken <= j < |e| ==> e[j] == 0
  {
    var run := Min(RunLength(symbols), MAX_RUN);
    var p := NextPiece(symbols);
    var e := Expand(p.chunk);
    if run >= 14 {
    } else {
      var look14 := Min(14, |symbols|);
      if OneBit(symbols[..look14]) {
        OneBitExpands(symbols[..look14]);
      } else {
        TwoBitExpands(symbols[..Min(7, |symbols|)]);
      }
    }
  }

  lemma OneBitExpands(symbols: seq<Symbol>)
    requires |symbols| <= 14 && OneBit(symbols)
    ensures var e := Expand(OneBitChunk(symbols)); |e| == 14 && e[..|symbols|] == symbols
    ensures forall j :: |symbols| <= j < 14 ==> Expand(OneBitChunk(symbols))[j] == 0
  {
    var bits := seq(14, j requires 0 <= j < 14 => At(symbols, j) == 1);
    VectorChunk(false, bits);
    hide Unpack, Pack16;
    var e := Expand(OneBitChunk(symbols));
    forall j | 0 <= j < 14 ensures e[j] == At(symbols, j) {
      assert ([true, false] + bits)[2 + j] == bits[j];
    }
  }

  lemma TwoBitExpands(symbols: seq<Symbol>)
    requires |symbols| <= 7
    ensures var e := Expand(TwoBitChunk(symbols)); |e| == 7 && e[..|symbols|] == symbols
    ensures forall j :: |symbols| <= j < 7 ==> Expand(TwoBitChunk(symbols))[j] == 0
  {
    var bits := seq(14, j requires 0 <= j < 14 =>
      if j % 2 == 0 then At(symbols, j / 2) / 2 == 1 else At(symbols, j / 2) % 2 == 1);
    VectorChunk(true, bits);
    hide Unpack, Pack16;
    var all := [true, true] + bits;
    var e := Expand(TwoBitChunk(symbols));
    hide At;
    forall j | 0 <= j < 7 ensures e[j] == At(symbols, j) {
      Halves(j);
      var s := At(symbols, j);
      assert all[2 + 2 * j] == bits[2 * j] == (s / 2 == 1);
      assert all[3 + 2 * j] == bits[2 * j + 1] == (s % 2 == 1);
    }
    AtEither(symbols);
  }

  lemma AtEither(symbols: seq<Symbol>)
    ensures (forall j :: 0 <= j < |symbols| ==> At(symbols, j) == symbols[j])
    ensures forall j :: j >= |symbols| ==> At(symbols, j) == 0
  {
  }

  lemma Halves(j: nat)
    ensures 2 * j % 2 == 0 && 2 * j / 2 == j && (2 * j + 1) % 2 == 1 && (2 * j + 1) / 2 == j
  {
  }

  // ------------------------------------------------------------------
  // Deltas
  // ------------------------------------------------------------------

  /** An entry of the caller's packet list; `deltaUs` counts from the previous received packet. */
  datatype Status = NotReceived | Received(deltaUs: int)

  /** `deltaUs | 0`. */
  function ToInt32(n: int): int {
    (n + 0x8000_0000) % 0x1_0000_0000 - 0x8000_0000
  }

  /** Rounded to 250 microseconds, halves up. */
  function Quantize(deltaUs: int): int {
    (2 * ToInt32(deltaUs) + 250) / 500
  }

  function SymbolOf(p: Status): Symbol {
    match p
    case NotReceived => 0
    case Received(deltaUs) =>
      var q := Quantize(deltaUs);
      if 0 <= q <= 0xFF then 1
      else if -0x8000 <= q <= 0x7FFF then 2
      else 0
  }

  function Symbols(packets: seq<Status>): (r: seq<Symbol>)
    ensures |r| == |packets| && forall i :: 0 <= i < |r| ==> r[i] == SymbolOf(packets[i]) <= 2
  {
    seq(|packets|, i requires 0 <= i < |packets| => SymbolOf(packets[i]))
  }

  function DeltaBytes(p: Status): Bytes {
    if SymbolOf(p) == 1 then [Quantize(p.deltaUs)]
    else if SymbolOf(p) == 2 then PutU16(Quantize(p.deltaUs) % 0x1_0000)
    else []
  }

  function AllDeltas(packets: seq<Status>): Bytes {
    if packets == [] then [] else DeltaBytes(packets[0]) + AllDeltas(packets[1..])
  }

  function ChunkBytes(chunks: seq<u16>): Bytes {
    if chunks == [] then [] else PutU16(chunks[0]) + ChunkBytes(chunks[1..])
  }

  // ------------------------------------------------------------------
  // The packet
  // ------------------------------------------------------------------

  datatype Feedback = Feedback(senderSsrc: u32, mediaSsrc: u32, baseSeq: u16, referenceTimeMs: int, fbPktCount: byte,
                               packets: seq<Status>)

  /** The reference time in 64 ms units, held to 24 signed bits. */
  function RefUnits(ms: int): int {
    var units := ms / 64;
    if units > 0x7F_FFFF then 0x7F_FFFF else if units < -0x80_0000 then -0x80_0000 else units
  }

  /** `packetCount & 0xFFFF` statuses: those past the end of the list read as not received, those beyond the
      count are left out. */
  function Counted(f: Feedback, packetCount: int): (c: Feedback)
    ensures |f.packets| == packetCount < 0x1_0000 ==> c == f
  {
    var count := packetCount % 0x1_0000;
    f.(packets := seq(count, i requires 0 <= i < count => if i < |f.packets| then f.packets[i] else NotReceived))
  }

  function FciHeader(f: Feedback, count: u16): (h: Bytes)
    ensures |h| == 8
  {
    var ref := RefUnits(f.referenceTimeMs) % 0x100_0000;
    PutU16(f.baseSeq) + PutU16(count) + [ref / 0x1_0000, ref / 0x100 % 0x100, ref % 0x100, f.fbPktCount]
  }

  function Fci(f: Feedback): Bytes
    requires |f.packets| < 0x1_0000
  {
    FciHeader(f, |f.packets|) + (ChunkBytes(Chunks(Symbols(f.packets))) + AllDeltas(f.packets))
  }

  function RtcpHeader(f: Feedback, words: u16): (h: Bytes)
    ensures |h| == 12
  {
    [0x8F, 205] + PutU16(words) + PutU32(f.senderSsrc) + PutU32(f.mediaSsrc)
  }

  function PadBytes(n: nat): nat {
    (4 - n % 4) % 4
  }

  /** The whole RTCP packet, zero-padded to 32-bit words. */
  function Build(f: Feedback): Bytes
    requires |f.packets| < 0x1_0000
  {
    var padBytes := PadBytes(12 + |Fci(f)|);
    LengthFits(f);
    RtcpHeader(f, (12 + |Fci(f)| + padBytes) / 4 - 1) + (Fci(f) + Zeros(padBytes))
  }

  lemma {:induction false} ChunksFew(symbols: seq<Symbol>)
    ensures 7 * |Chunks(symbols)| <= |symbols| + 6
    decreases |symbols|
  {
    if symbols != [] {
      var p := NextPiece(symbols);
      ChunksFew(symbols[p.taken..]);
    }
  }

  lemma {:induction false} ChunkBytesLength(chunks: seq<u16>)
    ensures |ChunkBytes(chunks)| == 2 * |chunks|
  {
    if chunks != [] {
      ChunkBytesLength(chunks[1..]);
    }
  }

  lemma {:induction false} DeltasLength(packets: seq<Status>)
    ensures |AllDeltas(packets)| <= 2 * |packets|
  {
    if packets != [] {
      DeltasLength(packets[1..]);
    }
  }

  /** The length field never overflows: a full packet of 65535 statuses stays below 2^16 words. */
  lemma LengthFits(f: Feedback)
    requires |f.packets| < 0x1_0000
    ensures (12 + |Fci(f)| + 3) / 4 < 0x1_0000 && |Fci(f)| >= 8
  {
    ChunksFew(Symbols(f.packets));
    ChunkBytesLength(Chunks(Symbols(f.packets)));
    DeltasLength(f.packets);
  }

  // ------------------------------------------------------------------
  // Parsing
  // ------------------------------------------------------------------

  datatype Scan = Scan(symbols: seq<Symbol>, off: nat)

  /** Reads chunks until `count` symbols are there. */
  function ReadSymbols(fci: Bytes, off: nat, count: nat, acc: seq<Symbol>): Option<Scan>
    decreases |fci| - off
  {
    if |acc| >= count then Some(Scan(acc, off))
    else if off + 2 > |fci| then None
    else
      var e := Expand(GetU16(fci, off));
      ReadSymbols(fci, off + 2, count, acc + e[..Min(|e|, count - |acc|)])
  }

  /** One parsed packet; `deltaUs` is present when a delta was sent. */
  datatype Parsed = Parsed(num: u16, received: bool, deltaUs: Option<int>)

  function SignedU16(v: u16): int {
    if v >= 0x8000 then v - 0x1_0000 else v
  }

  /** Reads one delta per received packet. */
  function ReadDeltas(fci: Bytes, off: nat, num: u16, symbols: seq<Symbol>): Option<seq<Parsed>>
    decreases |symbols|
  {
    if symbols == [] then Some([])
    else
      var sym, rest := symbols[0], symbols[1..];
      if sym == 0 || sym == 3 then
        Prepend(Parsed(num, sym != 0, None), ReadDeltas(fci, off, Next(num), rest))
      else if sym == 1 then
        if off + 1 > |fci| then None
        else Prepend(Parsed(num, true, Some((fci[off] as int) * 250)), ReadDeltas(fci, off + 1, Next(num), rest))
      else
        if off + 2 > |fci| then None
        else Prepend(Parsed(num, true, Some(SignedU16(GetU16(fci, off)) * 250)),
                     ReadDeltas(fci, off + 2, Next(num), rest))
  }

  function Prepend(p: Parsed, rest: Option<seq<Parsed>>): Option<seq<Parsed>> {
    match rest
    case None => None
    case Some(ps) => Some([p] + ps)
  }

  datatype Report = Report(baseSeq: u16, packetCount: u16, referenceTimeMs: int, fbPktCount: byte, packets: seq<Parsed>)

  function Parse(fci: Bytes): Option<Report> {
    if |fci| < 8 then None
    else
      var baseSeq, packetCount := GetU16(fci, 0), GetU16(fci, 2);
      var refRaw := (fci[4] as int) * 0x1_0000 + (fci[5] as int) * 0x100 + fci[6];
      var ref := if refRaw >= 0x80_0000 then refRaw - 0x100_0000 else refRaw;
      match ReadSymbols(fci, 8, packetCount, [])
      case None => None
      case Some(scan) =>
        match ReadDeltas(fci, scan.off, baseSeq, scan.symbols)
        case None => None
        case Some(packets) => Some(Report(baseSeq, packetCount, ref * 64, fci[7], packets))
  }

  // ------------------------------------------------------------------
  // Reports of any sender
  // ------------------------------------------------------------------

  /** What the first `n` chunks stand for. */
  ghost function Expanded(fci: Bytes, off: nat, n: nat): seq<Symbol>
    requires off + 2 * n <= |fci|
    decreases n
  {
    if n == 0 then [] else Expanded(fci, off, n - 1) + Expand(GetU16(fci, off + 2 * (n - 1)))
  }

  lemma {:induction false} ExpandedFirst(fci: Bytes, off: nat, n: nat)
    requires 0 < n && off + 2 * n <= |fci|
    ensures Expanded(fci, off, n) == Expand(GetU16(fci, off)) + Expanded(fci, off + 2, n - 1)
    decreases n
  {
    hide Expand, GetU16;
    var first := Expand(GetU16(fci, off));
    if n == 1 {
      assert Expanded(fci, off, 0) == [] && Expanded(fci, off + 2, 0) == [];
      assert [] + first == first + [];
    } else {
      ExpandedFirst(fci, off, n - 1);
      var last := Expand(GetU16(fci, off + 2 * (n - 1)));
      assert off + 2 + 2 * (n - 2) == off + 2 * (n - 1);
      assert (first + Expanded(fci, off + 2, n - 2)) + last == first + (Expanded(fci, off + 2, n - 2) + last);
    }
  }

  /** As many chunks are read as it takes to have a symbol for every packet; what the last one holds beyond that is
      ignored; and when the chunks run out before, there is no report. */
  lemma {:induction false} SymbolsRead(fci: Bytes, off: nat, count: nat, acc: seq<Symbol>) returns (n: nat)
    requires |acc| <= count && off <= |fci|
    ensures off + 2 * n <= |fci|
    ensures match ReadSymbols(fci, off, count, acc)
            case None => off + 2 * n + 2 > |fci| && |acc| + |Expanded(fci, off, n)| < count
            case Some(scan) =>
              && scan.off == off + 2 * n && |acc| + |Expanded(fci, off, n)| >= count
              && scan.symbols == (acc + Expanded(fci, off, n))[..count]
              && (n > 0 ==> |acc| + |Expanded(fci, off, n - 1)| < count)
    decreases |fci| - off
  {
    hide Expand, GetU16;
    n := 0;
    if |acc| >= count {
      assert (acc + [])[..count] == acc;
    } else if off + 2 <= |fci| {
      var e := Expand(GetU16(fci, off));
      var more := acc + e[..Min(|e|, count - |acc|)];
      var m := SymbolsRead(fci, off + 2, count, more);
      n := m + 1;
      ExpandedFirst(fci, off, n);
      if m > 0 {
        ExpandedFirst(fci, off, m);
      }
      SymbolsJoin(acc, e, Expanded(fci, off + 2, m), count);
    }
  }

  lemma SymbolsJoin(acc: seq<Symbol>, e: seq<Symbol>, rest: seq<Symbol>, count: nat)
    requires |acc| < count
    ensures var more := acc + e[..Min(|e|, count - |acc|)];
            && (|e| <= count - |acc| ==> more + rest == acc + (e + rest))
            && (|e| > count - |acc| ==> |more| == count && more == (acc + (e + rest))[..count])
  {
  }

  /** The bytes the deltas of these symbols take. */
  ghost function DeltaLength(symbols: seq<Symbol>): nat {
    if symbols == [] then 0
    else (if symbols[0] == 1 then 1 else if symbols[0] == 2 then 2 else 0) + DeltaLength(symbols[1..])
  }

  /** Every packet has its number and, from its symbol, whether it came; and a delta in units of 250 microseconds
      from one unsigned or two signed bytes, at the place the symbols before it leave. There is no report when the
      deltas are cut short. */
  lemma {:induction false} DeltasRead(fci: Bytes, off: nat, num: u16, symbols: seq<Symbol>, i: nat)
    requires off <= |fci|
    ensures ReadDeltas(fci, off, num, symbols).None? <==> off + DeltaLength(symbols) > |fci|
    ensures off + DeltaLength(symbols) <= |fci| && i < |symbols| ==>
              var ps := ReadDeltas(fci, off, num, symbols).value;
              var at := off + DeltaLength(symbols[..i]);
              && |ps| == |symbols| && ps[i].num == Wrap(num + i) && (ps[i].received <==> symbols[i] != 0)
              && (symbols[i] == 1 ==> at < |fci| && ps[i].deltaUs == Some((fci[at] as int) * 250))
              && (symbols[i] == 2 ==> at + 2 <= |fci| && ps[i].deltaUs == Some(SignedU16(GetU16(fci, at)) * 250))
              && (symbols[i] == 0 || symbols[i] == 3 ==> ps[i].deltaUs == None)
    decreases |symbols|
  {
    hide GetU16, SignedU16;
    if symbols != [] {
      var sym, rest := symbols[0], symbols[1..];
      var next := off + if sym == 1 then 1 else if sym == 2 then 2 else 0;
      if next <= |fci| {
        DeltasRead(fci, next, Next(num), rest, if i > 0 then i - 1 else 0);
        NextNumber(num, i);
        if 0 < i < |symbols| {
          assert symbols[..i][0] == sym && symbols[..i][1..] == rest[..i - 1];
        }
      }
    }
  }

  lemma NextNumber(num: u16, i: nat)
    ensures Wrap(num) == num
    ensures i > 0 ==> Wrap(Next(num) + (i - 1)) == Wrap(num + i)
  {
  }

  // ------------------------------------------------------------------
  // Round trip
  // ------------------------------------------------------------------

  /** Reading back the chunks of the symbols from `i` on completes them. */
  lemma {:induction false} ChunksRoundTrip(fci: Bytes, off: nat, all: seq<Symbol>, i: nat)
    requires Small(all) && i <= |all|
    requires Holds(fci, off, ChunkBytes(Chunks(all[i..])))
    ensures ReadSymbols(fci, off, |all|, all[..i]) == Some(Scan(all, off + |ChunkBytes(Chunks(all[i..]))|))
    decreases |all| - i
  {
    hide Expand, NextPiece, PutU16, GetU16, Chunks, ChunkBytes, ReadSymbols, Holds;
    if i == |all| {
      assert all[..i] == all && all[i..] == [];
      NothingLeft(fci, off, all);
    } else {
      var p := NextPiece(all[i..]);
      assert all[i..][p.taken..] == all[i + p.taken..];
      ChunkStep(all[i..]);
      HoldsSplit(fci, off, PutU16(p.chunk), ChunkBytes(Chunks(all[i + p.taken..])));
      ReadStep(fci, off, |all|, all[..i], p.chunk);
      TakesPiece(all, i);
      ChunksRoundTrip(fci, off + 2, all, i + p.taken);
    }
  }

  lemma NothingLeft(fci: Bytes, off: nat, all: seq<Symbol>)
    ensures ReadSymbols(fci, off, |all|, all) == Some(Scan(all, off)) && ChunkBytes(Chunks([])) == []
  {
  }

  /** After one piece the symbols read are those written. */
  lemma TakesPiece(all: seq<Symbol>, i: nat)
    requires i < |all| && Small(all)
    ensures var p := NextPiece(all[i..]);
            var e := Expand(p.chunk);
            all[..i] + e[..Min(|e|, |all| - i)] == all[..i + p.taken]
  {
    hide Expand, NextPiece;
    PieceExpands(all[i..]);
  }

  lemma ChunkStep(symbols: seq<Symbol>)
    requires symbols != []
    ensures var p := NextPiece(symbols);
            ChunkBytes(Chunks(symbols)) == PutU16(p.chunk) + ChunkBytes(Chunks(symbols[p.taken..]))
  {
    hide NextPiece, PutU16;
    var p := NextPiece(symbols);
    assert ([p.chunk] + Chunks(symbols[p.taken..]))[1..] == Chunks(symbols[p.taken..]);
  }

  lemma ReadStep(fci: Bytes, off: nat, count: nat, acc: seq<Symbol>, chunk: u16)
    requires |acc| < count && Holds(fci, off, PutU16(chunk))
    ensures var e := Expand(chunk);
            ReadSymbols(fci, off, count, acc) == ReadSymbols(fci, off + 2, count, acc + e[..Min(|e|, count - |acc|)])
  {
    hide Expand, GetU16;
    GetPut16(fci, off, chunk);
  }

  /** What the receiver of the report is to learn about one packet. */
  function Told(num: u16, p: Status): Parsed {
    if SymbolOf(p) == 0 then Parsed(num, false, None) else Parsed(num, true, Some(Quantize(p.deltaUs) * 250))
  }

  function AllTold(num: u16, packets: seq<Status>): seq<Parsed>
    decreases |packets|
  {
    if packets == [] then [] else [Told(num, packets[0])] + AllTold(Next(num), packets[1..])
  }

  /** One packet's delta reads back. */
  lemma DeltaReads(fci: Bytes, off: nat, p: Status)
    requires Holds(fci, off, DeltaBytes(p))
    ensures SymbolOf(p) == 1 ==> fci[off] == Quantize(p.deltaUs)
    ensures SymbolOf(p) == 2 ==> SignedU16(GetU16(fci, off)) == Quantize(p.deltaUs)
  {
    if SymbolOf(p) == 1 {
      assert fci[off] == fci[off..off + 1][0];
    } else if SymbolOf(p) == 2 {
      hide PutU16, GetU16;
      GetPut16(fci, off, Quantize(p.deltaUs) % 0x1_0000);
    }
  }

  lemma {:induction false} DeltasRoundTrip(fci: Bytes, off: nat, num: u16, packets: seq<Status>)
    requires Holds(fci, off, AllDeltas(packets))
    ensures ReadDeltas(fci, off, num, Symbols(packets)) == Some(AllTold(num, packets))
    decreases |packets|
  {
    if packets != [] {
      var p, rest := packets[0], packets[1..];
      assert Symbols(packets) == [SymbolOf(p)] + Symbols(rest);
      assert Symbols(packets)[1..] == Symbols(rest);
      HoldsSplit(fci, off, DeltaBytes(p), AllDeltas(rest));
      DeltaReads(fci, off, p);
      hide PutU16, GetU16, Quantize, Symbols, Holds;
      DeltasRoundTrip(fci, off + |DeltaBytes(p)|, Next(num), rest);
    }
  }

  /** The RTCP header: version 2 without padding, format 15, type 205, the length in words less one, and the two
      SSRCs in this order. */
  lemma HeaderTells(f: Feedback)
    requires |f.packets| < 0x1_0000
    ensures var b := Build(f);
            && |b| >= 20 && |b| % 4 == 0 && b[0] == 0x8F && b[1] == 205 && (GetU16(b, 2) + 1) * 4 == |b|
            && GetU32(b, 4) == f.senderSsrc && GetU32(b, 8) == f.mediaSsrc
  {
    hide Fci, Zeros, PutU16, PutU32, GetU16, GetU32;
    LengthFits(f);
    var pad := PadBytes(12 + |Fci(f)|);
    var words := (12 + |Fci(f)| + pad) / 4 - 1;
    var b := Build(f);
    var first: Bytes := [0x8F, 205];
    assert b == first + (PutU16(words) + (PutU32(f.senderSsrc) + (PutU32(f.mediaSsrc) + (Fci(f) + Zeros(pad)))));
    assert b[2..4] == PutU16(words) && b[4..8] == PutU32(f.senderSsrc) && b[8..12] == PutU32(f.mediaSsrc);
    GetPut16(b, 2, words);
    GetPut32(b, 4, f.senderSsrc);
    GetPut32(b, 8, f.mediaSsrc);
  }

  /** What a receiver is told of a delta within 32 bits: within -8192125 and 8191875 microseconds that the packet
      came, and the delta to the nearest 250, halves up; beyond it, that the packet is lost. */
  lemma ToldNearest(num: u16, deltaUs: int)
    requires -0x8000_0000 <= deltaUs < 0x8000_0000
    ensures var t := Told(num, Received(deltaUs));
            && t.num == num
            && (t.received <==> -8192125 <= deltaUs < 8191875)
            && (t.received ==> t.deltaUs.Some? && t.deltaUs.value % 250 == 0
                               && -125 <= deltaUs - t.deltaUs.value < 125)
            && (!t.received ==> t.deltaUs == None)
    ensures Told(num, NotReceived) == Parsed(num, false, None)
  {
    var q := Quantize(deltaUs);
    assert 500 * q <= 2 * deltaUs + 250 < 500 * q + 500;
  }

  /** A delta counts modulo 2^32, so with this the above tells what becomes of every delta. */
  lemma DeltaWraps(num: u16, deltaUs: int, turns: int)
    ensures Told(num, Received(deltaUs + 0x1_0000_0000 * turns)) == Told(num, Received(deltaUs))
  {
    var a, b := deltaUs + 0x8000_0000, deltaUs + 0x1_0000_0000 * turns + 0x8000_0000;
    assert b % 0x1_0000_0000 == a % 0x1_0000_0000;
  }

  /** A delta from 0 to under 63.875 ms takes one byte, any other that is told takes two. */
  lemma DeltaSize(deltaUs: int)
    requires -0x8000_0000 <= deltaUs < 0x8000_0000
    ensures |DeltaBytes(Received(deltaUs))| ==
              if -125 <= deltaUs < 63875 then 1 else if -8192125 <= deltaUs < 8191875 then 2 else 0
    ensures DeltaBytes(NotReceived) == []
  {
    var q := Quantize(deltaUs);
    assert 500 * q <= 2 * deltaUs + 250 < 500 * q + 500;
  }

  /** The reference time in the packet is the 24-bit count of 64 ms units nearest to the clock's. */
  lemma RefNearest(ms: int, r: int)
    requires -0x80_0000 <= r < 0x80_0000
    ensures -0x80_0000 <= RefUnits(ms) < 0x80_0000
    ensures -0x80_0000 <= ms / 64 < 0x80_0000 ==> 64 * RefUnits(ms) <= ms < 64 * RefUnits(ms) + 64
    ensures r <= RefUnits(ms) <= ms / 64 || ms / 64 <= RefUnits(ms) <= r || RefUnits(ms) == ms / 64
  {
  }

  /** The parsed report of a built feedback packet: base number, count, feedback count, the reference time
      floored to 64 ms and held to 24 bits, and every packet's flag and rounded delta. */
  lemma BuildParses(f: Feedback)
    requires |f.packets| < 0x1_0000
    ensures |Build(f)| >= 20 && |Build(f)| % 4 == 0
    ensures Parse(Build(f)[12..]) ==
              Some(Report(f.baseSeq, |f.packets|, RefUnits(f.referenceTimeMs) * 64, f.fbPktCount,
                          AllTold(f.baseSeq, f.packets)))
  {
    hide Parse, Fci, RtcpHeader, Zeros;
    LengthFits(f);
    var pad := Zeros(PadBytes(12 + |Fci(f)|));
    assert Build(f)[12..] == Fci(f) + pad;
    hide Build;
    ParseFci(f, Build(f)[12..], pad);
  }

  lemma ParseFci(f: Feedback, fci: Bytes, pad: Bytes)
    requires |f.packets| < 0x1_0000
    requires fci == Fci(f) + pad
    ensures Parse(fci) == Some(Report(f.baseSeq, |f.packets|, RefUnits(f.referenceTimeMs) * 64, f.fbPktCount,
                                      AllTold(f.baseSeq, f.packets)))
  {
    hide Chunks, ChunkBytes, AllDeltas, GetU16, RefUnits, ReadSymbols, ReadDeltas, AllTold, FciHeader, Holds;
    var symbols := Symbols(f.packets);
    var chunkBytes, deltas := ChunkBytes(Chunks(symbols)), AllDeltas(f.packets);
    HoldsPrefix(FciHeader(f, |f.packets|) + (chunkBytes + deltas), pad);
    HoldsSplit(fci, 0, FciHeader(f, |f.packets|), chunkBytes + deltas);
    HoldsSplit(fci, 8, chunkBytes, deltas);
    HeaderReads(f, fci);
    assert symbols[0..] == symbols && symbols[..0] == [];
    ChunksRoundTrip(fci, 8, symbols, 0);
    DeltasRoundTrip(fci, 8 + |chunkBytes|, f.baseSeq, f.packets);
  }

  lemma HeaderReads(f: Feedback, fci: Bytes)
    requires |f.packets| < 0x1_0000 && Holds(fci, 0, FciHeader(f, |f.packets|))
    ensures |fci| >= 8
    ensures GetU16(fci, 0) == f.baseSeq && GetU16(fci, 2) == |f.packets| && fci[7] == f.fbPktCount
    ensures var refRaw := (fci[4] as int) * 0x1_0000 + (fci[5] as int) * 0x100 + fci[6];
            RefUnits(f.referenceTimeMs) == if refRaw >= 0x80_0000 then refRaw - 0x100_0000 else refRaw
  {
    var ref := RefUnits(f.referenceTimeMs) % 0x100_0000;
    var refBytes: Bytes := [ref / 0x1_0000, ref / 0x100 % 0x100, ref % 0x100, f.fbPktCount];
    HoldsSplit(fci, 0, PutU16(f.baseSeq) + PutU16(|f.packets|), refBytes);
    HoldsSplit(fci, 0, PutU16(f.baseSeq), PutU16(|f.packets|));
    GetPut16(fci, 0, f.baseSeq);
    GetPut16(fci, 2, |f.packets|);
    assert fci[4..8] == refBytes;
    assert fci[4] == refBytes[0] && fci[5] == refBytes[1] && fci[6] == refBytes[2] && fci[7] == refBytes[3];
    Ref24(RefUnits(f.referenceTimeMs));
  }

  /** 24-bit two's complement in three bytes. */
  lemma Ref24(units: int)
    requires -0x80_0000 <= units <= 0x7F_FFFF
    ensures var ref := units % 0x100_0000;
            && (ref / 0x1_0000) * 0x1_0000 + (ref / 0x100 % 0x100) * 0x100 + ref % 0x100 == ref
            && units == if ref >= 0x80_0000 then ref - 0x100_0000 else ref
  {
  }

  // ------------------------------------------------------------------
  // The loops of the source
  // ------------------------------------------------------------------

  /** Pass 2 of `buildTransportCC`. */
  method EncodeChunks(symbols: seq<Symbol>) returns (chunks: seq<u16>)
    ensures chunks == Chunks(symbols)
  {
    hide NextPiece;
    chunks := [];
    var i := 0;
    assert symbols[0..] == symbols;
    while i < |symbols|
      invariant 0 <= i <= |symbols|
      invariant chunks + Chunks(symbols[i..]) == Chunks(symbols)
    {
      var p := EncodePiece(symbols[i..]);
      assert symbols[i..][p.taken..] == symbols[i + p.taken..];
      assert chunks + ([p.chunk] + Chunks(symbols[i + p.taken..]))
          == (chunks + [p.chunk]) + Chunks(symbols[i + p.taken..]);
      chunks := chunks + [p.chunk];
      i := i + p.taken;
    }
  }

  /** One turn of the loop: a run if it is long enough, else the narrowest vector that fits. */
  method EncodePiece(symbols: seq<Symbol>) returns (p: Piece)
    requires symbols != []
    ensures p == NextPiece(symbols)
  {
    var s := symbols[0];
    var runEnd := 1;
    while runEnd < |symbols| && symbols[runEnd] == s
      invariant 1 <= runEnd <= |symbols|
      invariant forall i :: 0 <= i < runEnd ==> symbols[i] == s
    {
      runEnd := runEnd + 1;
    }
    RunLengthIs(symbols, runEnd);
    var runLen := if runEnd > MAX_RUN then MAX_RUN else runEnd;
    if s <= 2 && runLen >= 14 {
      return Piece(RunChunk(s, runLen), runLen);
    }
    var look14 := Min(14, |symbols|);
    var fits1bit := FitsOneBit(symbols[..look14]);
    hide OneBit, RunLength, OneBitChunk, TwoBitChunk;
    if fits1bit {
      var c := NarrowChunk(symbols[..look14]);
      return Piece(c, look14);
    }
    var look7 := Min(7, |symbols|);
    var c := WideChunk(symbols[..look7]);
    return Piece(c, look7);
  }

  method NarrowChunk(symbols: seq<Symbol>) returns (c: u16)
    ensures c == OneBitChunk(symbols)
  {
    hide Pack;
    Pow2Words();
    var bits := seq(14, j requires 0 <= j < 14 => At(symbols, j) == 1);
    c := OrBits([true, false], bits);
  }

  method WideChunk(symbols: seq<Symbol>) returns (c: u16)
    ensures c == TwoBitChunk(symbols)
  {
    hide Pack;
    Pow2Words();
    var bits := seq(14, j requires 0 <= j < 14 =>
      if j % 2 == 0 then At(symbols, j / 2) / 2 == 1 else At(symbols, j / 2) % 2 == 1);
    c := OrBits([true, true], bits);
  }

  method FitsOneBit(symbols: seq<Symbol>) returns (fits: bool)
    ensures fits <==> OneBit(symbols)
  {
    for j := 0 to |symbols|
      invariant OneBit(symbols[..j])
    {
      if symbols[j] > 1 {
        return false;
      }
    }
    fits := true;
  }

  lemma {:induction false} RunLengthIs(symbols: seq<Symbol>, n: nat)
    requires 1 <= n <= |symbols| && forall i :: 0 <= i < n ==> symbols[i] == symbols[0]
    requires n == |symbols| || symbols[n] != symbols[0]
    ensures RunLength(symbols) == n
    decreases n
  {
    if n > 1 {
      RunLengthIs(symbols[1..], n - 1);
    }
  }

  lemma StatusStep(packets: seq<Status>, i: nat)
    requires i < |packets|
    ensures Symbols(packets)[..i + 1] == Symbols(packets)[..i] + [SymbolOf(packets[i])]
    ensures AllDeltas(packets[i..]) == DeltaBytes(packets[i]) + AllDeltas(packets[i + 1..])
  {
    hide SymbolOf, DeltaBytes;
    assert packets[i..][1..] == packets[i + 1..];
  }

  /** The first pass of `buildTransportCC`. */
  method SymbolsAndDeltas(f: Feedback, packetCount: int) returns (symbols: seq<Symbol>, deltas: Bytes)
    ensures symbols == Symbols(Counted(f, packetCount).packets) && deltas == AllDeltas(Counted(f, packetCount).packets)
  {
    hide SymbolOf, Symbols, AllDeltas, DeltaBytes;
    ghost var packets := Counted(f, packetCount).packets;
    symbols, deltas := [], [];
    assert packets[0..] == packets;
    for i := 0 to packetCount % 0x1_0000
      invariant symbols == Symbols(packets)[..i]
      invariant deltas + AllDeltas(packets[i..]) == AllDeltas(packets)
    {
      var p := if i < |f.packets| then f.packets[i] else NotReceived;
      assert p == packets[i];
      StatusStep(packets, i);
      ghost var rest := AllDeltas(packets[i + 1..]);
      assert deltas + (DeltaBytes(p) + rest) == (deltas + DeltaBytes(p)) + rest;
      symbols := symbols + [SymbolOf(p)];
      deltas := deltas + DeltaBytes(p);
    }
    assert packets[|packets|..] == [] && AllDeltas([]) == [] by { NoDeltas(); }
    assert deltas + [] == deltas;
  }

  lemma NoDeltas()
    ensures AllDeltas([]) == []
  {
  }

  /** `buildTransportCC`: one pass for symbols and deltas, one for chunks, then the bytes in order. */
  method BuildTransportCC(f: Feedback, packetCount: int) returns (buf: Bytes)
    ensures buf == Build(Counted(f, packetCount))
  {
    hide Chunks, Symbols, AllDeltas;
    ghost var c := Counted(f, packetCount);
    var symbols, deltas := SymbolsAndDeltas(f, packetCount);
    var chunks := EncodeChunks(symbols);
    LengthFits(c);
    var fci := FciHeader(f, packetCount % 0x1_0000) + (ChunkBytes(chunks) + deltas);
    assert fci == Fci(c);
    var padBytes := PadBytes(12 + |fci|);
    buf := RtcpHeader(f, (12 + |fci| + padBytes) / 4 - 1) + (fci + Zeros(padBytes));
  }

  /** `parseTransportCC`: chunks until every packet has a symbol, then the deltas. */
  method ParseTransportCC(fci: Bytes) returns (r: Option<Report>)
    ensures r == Parse(fci)
  {
    hide Expand, GetU16;
    if |fci| < 8 {
      return None;
    }
    var baseSeq, packetCount := GetU16(fci, 0), GetU16(fci, 2);
    var refRaw := (fci[4] as int) * 0x1_0000 + (fci[5] as int) * 0x100 + fci[6];
    var ref := if refRaw >= 0x80_0000 then refRaw - 0x100_0000 else refRaw;
    var symbols: seq<Symbol>, off := [], 8;
    while |symbols| < packetCount
      invariant off <= |fci| && |symbols| <= packetCount
      invariant ReadSymbols(fci, off, packetCount, symbols) == ReadSymbols(fci, 8, packetCount, [])
      decreases |fci| - off
    {
      if off + 2 > |fci| {
        return None;
      }
      var e := Expand(GetU16(fci, off));
      symbols := symbols + e[..Min(|e|, packetCount - |symbols|)];
      off := off + 2;
    }
    var packets := ParseDeltas(fci, off, baseSeq, symbols);
    if packets.None? {
      return None;
    }
    r := Some(Report(baseSeq, packetCount, ref * 64, fci[7], packets.value));
  }

  /** Pass 2 of the parser. */
  method ParseDeltas(fci: Bytes, start: nat, baseSeq: u16, symbols: seq<Symbol>) returns (r: Option<seq<Parsed>>)
    requires start <= |fci|
    ensures r == ReadDeltas(fci, start, baseSeq, symbols)
  {
    hide GetU16, SignedU16, Next;
    var off: nat := start;
    var packets: seq<Parsed>, num := [], baseSeq;
    ghost var goal := ReadDeltas(fci, off, baseSeq, symbols);
    var i := 0;
    assert symbols[0..] == symbols && (goal.Some? ==> packets + goal.value == goal.value);
    while i < |symbols|
      invariant 0 <= i <= |symbols| && off <= |fci|
      invariant goal == match ReadDeltas(fci, off, num, symbols[i..])
                        case None => None case Some(ps) => Some(packets + ps)
    {
      var sym := symbols[i];
      assert symbols[i..][1..] == symbols[i + 1..];
      var next: Parsed;
      if sym == 0 || sym == 3 {
        next := Parsed(num, sym != 0, None);
      } else if sym == 1 {
        if off + 1 > |fci| {
          return None;
        }
        next := Parsed(num, true, Some((fci[off] as int) * 250));
        off := off + 1;
      } else {
        if off + 2 > |fci| {
          return None;
        }
        next := Parsed(num, true, Some(SignedU16(GetU16(fci, off)) * 250));
        off := off + 2;
      }
      ghost var rest := ReadDeltas(fci, off, Next(num), symbols[i + 1..]);
      assert rest.Some? ==> packets + ([next] + rest.value) == (packets + [next]) + rest.value;
      packets := packets + [next];
      num := Next(num);
      i := i + 1;
    }
    assert symbols[|symbols|..] == [] && packets + [] == packets;
    r := Some(packets);
  }
}
