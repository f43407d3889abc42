/**
 Framing of H.264 access units in src/h264.js: Annex-B start codes (Annex B of H.264) and 4-byte lengths.
 */
module H264Split {
  import opened Buffers
  import opened Options
  import opened Wire

  type Nalu = Bytes

  // ------------------------------------------------------------------
  // The splitter
  // ------------------------------------------------------------------

  /** The length of the start code at `i`, or 0. The source looks only where four bytes are left. */
  function CodeAt(b: Bytes, i: nat): (c: nat)
    requires i + 3 < |b|
    ensures c in {0, 3, 4}
  {
    if b[i] != 0 || b[i + 1] != 0 then 0
    else if b[i + 2] == 1 then 3
    else if b[i + 2] == 0 && b[i + 3] == 1 then 4
    else 0
  }

  /** Past the first start code; without one, three bytes before the end. */
  function FirstNalu(b: Bytes, i: nat): nat
    decreases |b| - i
  {
    if i + 3 >= |b| then i
    else if CodeAt(b, i) > 0 then i + CodeAt(b, i)
    else FirstNalu(b, i + 1)
  }

  function Cut(b: Bytes, start: nat, i: nat): seq<Nalu>
    requires start <= i
    decreases |b| - i
  {
    if i + 3 >= |b| then if start < |b| then [b[start..]] else []
    else
      var c := CodeAt(b, i);
      if c > 0 then (if i > start then [b[start..i]] else []) + Cut(b, i + c, i + c)
      else Cut(b, start, i + 1)
  }

  function SplitAnnexB(b: Bytes): seq<Nalu> {
    Cut(b, FirstNalu(b, 0), FirstNalu(b, 0))
  }

  predicate StartsWithCode(b: Bytes) {
    (|b| >= 3 && b[0] == 0 && b[1] == 0 && b[2] == 1)
    || (|b| >= 4 && b[0] == 0 && b[1] == 0 && b[2] == 0 && b[3] == 1)
  }

  /** Length-prefixed units that tile the rest of the buffer. */
  function WalkAvcc(b: Bytes, off: nat): Option<seq<Nalu>>
    decreases |b| - off
  {
    if off >= |b| then Some([])
    else if off + 4 > |b| then None
    else
      var len := GetU32(b, off) as nat;
      if len == 0 || off + 4 + len > |b| || b[off + 4] >= 0x80 then None
      else
        match WalkAvcc(b, off + 4 + len)
        case None => None
        case Some(rest) => Some([b[off + 4..off + 4 + len]] + rest)
  }

  function SplitNalus(b: Bytes): seq<Nalu> {
    if StartsWithCode(b) then SplitAnnexB(b)
    else if |b| < 5 then SplitAnnexB(b)
    else
      match WalkAvcc(b, 0)
      case Some(nalus) => nalus
      case None => SplitAnnexB(b)
  }

  /** Four-byte start codes. */
  function JoinAnnexB(nalus: seq<Nalu>): Bytes {
    if nalus == [] then [] else [0, 0, 0, 1] + nalus[0] + JoinAnnexB(nalus[1..])
  }

  // ------------------------------------------------------------------
  // Access units with mixed start codes
  // ------------------------------------------------------------------

  /** A unit behind a 4-byte (long) or 3-byte start code. */
  datatype Unit = Unit(long: bool, nalu: Nalu)

  function Code(long: bool): Bytes {
    if long then [0, 0, 0, 1] else [0, 0, 1]
  }

  function Stream(units: seq<Unit>): Bytes {
    if units == [] then [] else Code(units[0].long) + units[0].nalu + Stream(units[1..])
  }

  function Nalus(units: seq<Unit>): (n: seq<Nalu>)
    ensures |n| == |units| && forall i :: 0 <= i < |n| ==> n[i] == units[i].nalu
  {
    seq(|units|, i requires 0 <= i < |units| => units[i].nalu)
  }

  /** Free of 00 00 01. */
  ghost predicate CodeFree(n: Nalu) {
    forall i :: 0 <= i && i + 2 < |n| ==> !(n[i] == 0 && n[i + 1] == 0 && n[i + 2] == 1)
  }

  /** Non-empty, code free, and starting with a byte other than zero, as every type but 0 makes it. */
  ghost predicate Plain(n: Nalu) {
    n != [] && n[0] != 0 && CodeFree(n)
  }

  ghost predicate AllPlain(nalus: seq<Nalu>) {
    forall i :: 0 <= i < |nalus| ==> Plain(nalus[i])
  }

  /** A last zero byte reads as part of a short code that follows it. */
  predicate LosesZero(n: Nalu, next: nat) {
    next == 3 && n != [] && n[|n| - 1] == 0
  }

  function Kept(n: Nalu, next: nat): Nalu {
    if LosesZero(n, next) then n[..|n| - 1] else n
  }

  function CodeLength(units: seq<Unit>): nat {
    if units == [] then 0 else |Code(units[0].long)|
  }

  /** What the splitter makes of the units. */
  function Found(units: seq<Unit>): (f: seq<Nalu>)
    ensures |f| == |units|
  {
    if units == [] then []
    else [Kept(units[0].nalu, CodeLength(units[1..]))] + Found(units[1..])
  }

  /** In `b` the unit `n` starts at `start` and is followed by a start code of this length, or by the end. */
  ghost predicate Stands(b: Bytes, start: nat, n: Nalu, next: nat) {
    var end := start + |n|;
    && Holds(b, start, n)
    && (next == 0 ==> |b| == end)
    && (next != 0 ==> (next == 3 || next == 4) && Holds(b, end, Code(next == 4)) && |b| > end + next)
  }

  lemma CodeBytes(b: Bytes, start: nat, n: Nalu, next: nat)
    requires Stands(b, start, n, next) && next != 0
    ensures var end := start + |n|;
            && end + next < |b| && b[end] == 0 && b[end + 1] == 0
            && (next == 3 ==> b[end + 2] == 1) && (next == 4 ==> b[end + 2] == 0 && b[end + 3] == 1)
  {
    var end := start + |n|;
    var c := Code(next == 4);
    assert |c| == next && b[end..end + |c|] == c;
    var w := b[end..end + |c|];
    assert b[end] == w[0] && b[end + 1] == w[1] && b[end + 2] == w[2];
    if next == 4 {
      assert b[end + 3] == w[3];
    }
  }

  lemma NoCodeInside(b: Bytes, start: nat, n: Nalu, next: nat, i: nat)
    requires Stands(b, start, n, next) && CodeFree(n)
    requires start <= i < start + |Kept(n, next)| && i + 3 < |b|
    ensures CodeAt(b, i) == 0
  {
    var end := start + |n|;
    assert forall k :: 0 <= k < |n| ==> b[start + k] == b[start..end][k];
    if next != 0 {
      CodeBytes(b, start, n, next);
    }
    if i + 2 < end {
      assert b[i] == n[i - start] && b[i + 1] == n[i - start + 1] && b[i + 2] == n[i - start + 2];
      if i + 3 < end {
        assert b[i + 3] == n[i - start + 3];
      }
    } else {
      assert b[i] == n[i - start];
    }
  }

  /** The code after a unit is found right after what is kept of it. */
  lemma CodeBehind(b: Bytes, start: nat, n: Nalu, next: nat)
    requires Stands(b, start, n, next) && next != 0
    ensures var i := start + |Kept(n, next)|; i + 3 < |b| && CodeAt(b, i) > 0 && i + CodeAt(b, i) == start + |n| + next
  {
    var end := start + |n|;
    CodeBytes(b, start, n, next);
    if LosesZero(n, next) {
      assert b[end - 1] == b[start..end][|n| - 1];
    }
  }

  lemma {:induction false} CutsHere(b: Bytes, start: nat, i: nat, n: Nalu, next: nat)
    requires Stands(b, start, n, next) && Plain(n)
    requires start <= i <= start + |Kept(n, next)|
    ensures Cut(b, start, i)
         == [Kept(n, next)] + if next == 0 then [] else Cut(b, start + |n| + next, start + |n| + next)
    decreases |b| - i
  {
    hide CodeAt, Plain, LosesZero;
    KeptPart(n, next);
    if i + 3 >= |b| {
      if next != 0 {
        CodeBehind(b, start, n, next);
        assert false;
      }
      assert b[start..] == n;
    } else if i < start + |Kept(n, next)| {
      assert CodeFree(n) by { PlainIs(n); }
      NoCodeInside(b, start, n, next, i);
      CutsHere(b, start, i + 1, n, next);
    } else {
      CodeBehind(b, start, n, next);
      assert b[start..i] == b[start..start + |n|][..i - start];
    }
  }

  lemma PlainIs(n: Nalu)
    requires Plain(n)
    ensures CodeFree(n)
  {
  }

  lemma KeptPart(n: Nalu, next: nat)
    requires Plain(n)
    ensures 0 < |Kept(n, next)| <= |n| && Kept(n, next) == n[..|Kept(n, next)|]
    ensures next == 0 ==> Kept(n, next) == n
  {
    if |n| == 1 {
      assert n[0] != 0;
    }
  }

  lemma PlainTail(units: seq<Unit>)
    requires units != [] && AllPlain(Nalus(units))
    ensures Plain(units[0].nalu) && AllPlain(Nalus(units[1..]))
    ensures units[0].nalu != []
  {
    assert Nalus(units)[0] == units[0].nalu;
    assert forall i :: 0 <= i < |units| - 1 ==> Nalus(units[1..])[i] == Nalus(units)[i + 1];
  }

  lemma {:induction false} CutsAll(b: Bytes, start: nat, units: seq<Unit>)
    requires units != [] && AllPlain(Nalus(units))
    requires Holds(b, start, units[0].nalu + Stream(units[1..])) && start + |units[0].nalu + Stream(units[1..])| == |b|
    ensures Cut(b, start, start) == Found(units)
    decreases |units|
  {
    hide Plain, AllPlain, Nalus, Cut, Kept, Stands, Holds, Stream, Code;
    PlainTail(units);
    var n, rest := units[0].nalu, units[1..];
    var next, end := CodeLength(rest), start + |n|;
    StandsHere(b, start, units);
    if rest != [] {
      CutsAll(b, end + next, rest);
    } else {
      assert Found(rest) == [];
    }
    KeptPart(n, next);
    CutsHere(b, start, start, n, next);
  }

  lemma StandsHere(b: Bytes, start: nat, units: seq<Unit>)
    requires units != [] && AllPlain(Nalus(units))
    requires Holds(b, start, units[0].nalu + Stream(units[1..])) && start + |units[0].nalu + Stream(units[1..])| == |b|
    ensures var n, rest, next := units[0].nalu, units[1..], CodeLength(units[1..]);
            && Stands(b, start, n, next)
            && (rest == [] <==> next == 0)
            && (rest != [] ==> AllPlain(Nalus(rest)))
            && (rest != [] ==> Holds(b, start + |n| + next, rest[0].nalu + Stream(rest[1..])))
            && (rest != [] ==> start + |n| + next + |rest[0].nalu + Stream(rest[1..])| == |b|)
  {
    hide AllPlain, Nalus, Holds;
    var n, rest := units[0].nalu, units[1..];
    PlainTail(units);
    HoldsSplit(b, start, n, Stream(rest));
    if rest == [] {
      assert n + [] == n;
    } else {
      var code, tail := Code(rest[0].long), rest[0].nalu + Stream(rest[1..]);
      PlainTail(rest);
      assert Stream(rest) == code + tail;
      HoldsSplit(b, start + |n|, code, tail);
    }
  }

  /** Splitting an access unit, exactly: every unit comes back, short of one last zero byte where a 3-byte
      start code follows it. */
  lemma SplitFound(units: seq<Unit>)
    requires units != [] && AllPlain(Nalus(units))
    ensures SplitNalus(Stream(units)) == Found(units)
  {
    hide Plain, Cut;
    var b, code := Stream(units), Code(units[0].long);
    PlainTail(units);
    var tail := units[0].nalu + Stream(units[1..]);
    assert b == code + tail;
    HoldsPrefix(b, []);
    assert b + [] == b;
    HoldsSplit(b, 0, code, tail);
    assert forall k :: 0 <= k < |code| ==> b[k] == code[k];
    assert CodeAt(b, 0) == |code|;
    CutsAll(b, |code|, units);
  }

  /** No unit ending in a zero byte stands before a 3-byte start code. */
  predicate ZerosSafe(units: seq<Unit>) {
    units == [] || (!LosesZero(units[0].nalu, CodeLength(units[1..])) && ZerosSafe(units[1..]))
  }

  lemma {:induction false} FoundExact(units: seq<Unit>)
    requires AllPlain(Nalus(units))
    ensures Found(units) == Nalus(units) <==> ZerosSafe(units)
    decreases |units|
  {
    hide Plain;
    if units != [] {
      var n, rest := units[0].nalu, units[1..];
      PlainTail(units);
      FoundExact(rest);
      assert Nalus(units) == [n] + Nalus(rest);
      assert Found(units)[1..] == Found(rest) && Nalus(units)[1..] == Nalus(rest);
      assert Kept(n, CodeLength(rest)) == n <==> !LosesZero(n, CodeLength(rest));
    }
  }

  /** Units come back whole exactly when none that ends in a zero byte stands before a 3-byte start code. */
  lemma SplitExact(units: seq<Unit>)
    requires units != [] && AllPlain(Nalus(units))
    ensures SplitNalus(Stream(units)) == Nalus(units) <==> ZerosSafe(units)
  {
    SplitFound(units);
    FoundExact(units);
  }

  /** 65 00 before 00 00 01 comes back as 65. */
  lemma ZeroLost()
    ensures var units := [Unit(true, [0x65, 0]), Unit(false, [0x41])];
            AllPlain(Nalus(units)) && SplitNalus(Stream(units)) == [[0x65], [0x41]]
  {
    var units := [Unit(true, [0x65, 0]), Unit(false, [0x41])];
    SplitFound(units);
    assert units[1..] == [Unit(false, [0x41])] && units[1..][1..] == [];
    assert [0x65 as byte, 0 as byte][..1] == [0x65];
  }

  function Long(nalus: seq<Nalu>): (u: seq<Unit>)
    ensures |u| == |nalus| && forall i :: 0 <= i < |u| ==> u[i] == Unit(true, nalus[i])
  {
    seq(|nalus|, i requires 0 <= i < |nalus| => Unit(true, nalus[i]))
  }

  lemma {:induction false} JoinIsLong(nalus: seq<Nalu>)
    ensures Stream(Long(nalus)) == JoinAnnexB(nalus) && Nalus(Long(nalus)) == nalus
    decreases |nalus|
  {
    if nalus != [] {
      assert Long(nalus)[1..] == Long(nalus[1..]);
      JoinIsLong(nalus[1..]);
    }
  }

  /** The joined form always splits back. */
  lemma JoinSplits(nalus: seq<Nalu>)
    requires nalus != [] && AllPlain(nalus)
    ensures SplitNalus(JoinAnnexB(nalus)) == nalus
  {
    JoinIsLong(nalus);
    LongSafe(Long(nalus));
    SplitExact(Long(nalus));
  }

  lemma {:induction false} LongSafe(units: seq<Unit>)
    requires forall i :: 0 <= i < |units| ==> units[i].long
    ensures ZerosSafe(units)
    decreases |units|
  {
    if units != [] {
      LongSafe(units[1..]);
      assert |units| > 1 ==> units[1..][0].long;
    }
  }

  // ------------------------------------------------------------------
  // Length-prefixed and unframed input
  // ------------------------------------------------------------------

  ghost predicate Prefixable(nalus: seq<Nalu>) {
    forall i :: 0 <= i < |nalus| ==> 0 < |nalus[i]| < 0x1_0000_0000 && nalus[i][0] < 0x80
  }

  function Avcc(nalus: seq<Nalu>): Bytes
    requires Prefixable(nalus)
  {
    if nalus == [] then [] else PutU32(|nalus[0]|) + (nalus[0] + Avcc(nalus[1..]))
  }

  lemma {:induction false} WalksBack(b: Bytes, off: nat, nalus: seq<Nalu>)
    requires Prefixable(nalus) && Holds(b, off, Avcc(nalus)) && off + |Avcc(nalus)| == |b|
    ensures WalkAvcc(b, off) == Some(nalus)
    decreases |nalus|
  {
    hide PutU32, GetU32;
    if nalus == [] {
      assert off == |b|;
    } else {
      var n := nalus[0];
      HoldsSplit(b, off, PutU32(|n|), n + Avcc(nalus[1..]));
      HoldsSplit(b, off + 4, n, Avcc(nalus[1..]));
      GetPut32(b, off, |n|);
      assert b[off + 4] == b[off + 4..off + 4 + |n|][0];
      assert nalus == [n] + nalus[1..];
      WalksBack(b, off + 4 + |n|, nalus[1..]);
    }
  }

  /** What the walk accepts are length-prefixed units, each with the top bit of its first byte clear. */
  lemma {:induction false} WalkTiles(b: Bytes, off: nat)
    requires off <= |b| && WalkAvcc(b, off).Some?
    ensures var nalus := WalkAvcc(b, off).value;
            Prefixable(nalus) && b[off..] == Avcc(nalus) && (off < |b| ==> nalus != [])
    decreases |b| - off
  {
    hide PutU32, GetU32;
    if off < |b| {
      var len := GetU32(b, off) as nat;
      WalkTiles(b, off + 4 + len);
      PutGet32(b, off);
      var n, rest := b[off + 4..off + 4 + len], WalkAvcc(b, off + 4 + len).value;
      var nalus := [n] + rest;
      assert nalus[1..] == rest && n[0] == b[off + 4];
      assert b[off..] == b[off..off + 4] + (n + b[off + 4 + len..]);
    }
  }

  /** Everything else is read as Annex-B: what starts with a code, and what length-prefixed units do not tile. */
  lemma OtherwiseAnnexB(b: Bytes)
    requires || [0, 0, 1] <= b
             || [0, 0, 0, 1] <= b
             || forall nalus :: nalus != [] && Prefixable(nalus) ==> b != Avcc(nalus)
    ensures SplitNalus(b) == SplitAnnexB(b)
  {
    hide SplitAnnexB, Prefixable, WalkAvcc, Avcc;
    if |b| >= 5 && WalkAvcc(b, 0).Some? {
      WalkTiles(b, 0);
      assert b[0..] == b;
    }
  }

  /** Length-prefixed units split back unless the first length, 1 or 256 to 511, looks like a start code. */
  lemma AvccSplits(nalus: seq<Nalu>)
    requires nalus != [] && Prefixable(nalus)
    ensures StartsWithCode(Avcc(nalus)) <==> |nalus[0]| == 1 || 256 <= |nalus[0]| <= 511
    ensures !StartsWithCode(Avcc(nalus)) ==> SplitNalus(Avcc(nalus)) == nalus
  {
    var b, len := Avcc(nalus), |nalus[0]|;
    assert |b| >= 5;
    assert b[0] == PutU32(len)[0] && b[1] == PutU32(len)[1] && b[2] == PutU32(len)[2] && b[3] == PutU32(len)[3];
    assert b[0] == len / 0x1_0000 / 0x100 && b[1] == len / 0x1_0000 % 0x100;
    assert b[2] == len % 0x1_0000 / 0x100 && b[3] == len % 0x100;
    assert b + [] == b;
    HoldsPrefix(b, []);
    WalksBack(b, 0, nalus);
  }

  /** Every unit starts with a byte other than zero, as every type but 0 makes it. */
  ghost predicate Headed(nalus: seq<Nalu>) {
    forall i :: 0 <= i < |nalus| ==> nalus[i] != [] && nalus[i][0] != 0
  }

  predicate SingleBytes(nalus: seq<Nalu>) {
    forall i :: 0 <= i < |nalus| ==> |nalus[i]| == 1
  }

  /** The unit being scanned when the cursor stands past its start: it ends at the end or where a code begins. */
  lemma {:induction false} CutFirst(b: Bytes, start: nat, i: nat)
    requires start < i <= |b|
    ensures var c := Cut(b, start, i);
            && c != [] && i - start <= |c[0]| && start + |c[0]| <= |b| && c[0] == b[start..start + |c[0]|]
            && var end := start + |c[0]|; end < |b| ==> b[end] == 0
    decreases |b| - i
  {
    if i + 3 < |b| && CodeAt(b, i) == 0 {
      CutFirst(b, start, i + 1);
    }
  }

  lemma {:induction false} AllSame(n: Nalu, k: nat)
    requires k < |n| && forall j :: 0 <= j && j + 1 < |n| ==> n[j] == n[j + 1]
    ensures n[k] == n[0]
  {
    if k > 0 {
      AllSame(n, k - 1);
    }
  }

  /** Scanned from one byte too early, a unit never comes back: it would have to repeat its first byte up to
      its end, and no code begins on that byte. */
  lemma CutShifted(b: Bytes, p: nat, n: Nalu)
    requires Holds(b, p + 1, n) && |n| >= 3 && n[0] != 0
    ensures Cut(b, p, p) != [] ==> Cut(b, p, p)[0] != n
  {
    var end := p + 1 + |n|;
    assert b[p + |n|] == b[p + 1..end][|n| - 1] == n[|n| - 1];
    assert b[p + 1] == b[p + 1..end][0];
    CutFirst(b, p, p + 1);
    if Cut(b, p, p)[0] == n {
      CutRepeats(b, p, n);
    }
  }

  /** A unit found one byte before where it also stands is one byte repeated. */
  lemma CutRepeats(b: Bytes, p: nat, n: Nalu)
    requires n != [] && p + 1 + |n| <= |b| && b[p..p + |n|] == n == b[p + 1..p + 1 + |n|]
    ensures n[|n| - 1] == n[0]
  {
    forall j | 0 <= j && j + 1 < |n| ensures n[j] == n[j + 1] {
      assert n[j] == b[p + 1..p + 1 + |n|][j] && n[j + 1] == b[p..p + |n|][j + 1];
    }
    AllSame(n, |n| - 1);
  }

  lemma LengthBytes(b: Bytes, off: nat, len: nat)
    requires 0 < len < 0x1_0000_0000 && Holds(b, off, PutU32(len)) && off + 4 < |b|
    ensures CodeAt(b, off) == if len == 1 then 4 else if 256 <= len <= 511 then 3 else 0
  {
    var w := b[off..off + 4];
    assert w == PutU32(len);
    assert b[off] == w[0] && b[off + 1] == w[1] && b[off + 2] == w[2] && b[off + 3] == w[3];
    assert w[0] == len / 0x1_0000 / 0x100 && w[1] == len / 0x1_0000 % 0x100;
    assert w[2] == len % 0x1_0000 / 0x100 && w[3] == len % 0x100;
  }

  /** Behind a code and a single byte, the units come back exactly when all the others are single bytes too:
      only then does each length read as a code. */
  lemma {:induction false} CutSingles(b: Bytes, pos: nat, nalus: seq<Nalu>)
    requires nalus != [] && Prefixable(nalus) && Headed(nalus) && |nalus[0]| == 1
    requires Holds(b, pos, nalus[0] + Avcc(nalus[1..])) && pos + 1 + |Avcc(nalus[1..])| == |b|
    ensures Cut(b, pos, pos) == nalus <==> SingleBytes(nalus)
    decreases |nalus|
  {
    hide PutU32, CodeAt;
    var n, rest := nalus[0], nalus[1..];
    HoldsSplit(b, pos, n, Avcc(rest));
    assert n == b[pos..pos + 1] && nalus == [n] + rest;
    if rest == [] {
      assert b[pos..] == n;
    } else {
      var m, tail := rest[0], rest[1..];
      assert rest[0] == nalus[1];
      HoldsSplit(b, pos + 1, PutU32(|m|), m + Avcc(tail));
      LengthBytes(b, pos + 1, |m|);
      assert CodeAt(b, pos) == 0 by { NoCodeOn(b, pos); }
      assert Cut(b, pos, pos) == Cut(b, pos, pos + 1);
      if |m| == 1 {
        CutSingles(b, pos + 5, rest);
        assert SingleBytes(nalus) <==> SingleBytes(rest) by { SinglesSplit(nalus); }
        assert Cut(b, pos, pos + 1) == [n] + Cut(b, pos + 5, pos + 5);
        assert ([n] + rest)[1..] == rest && ([n] + Cut(b, pos + 5, pos + 5))[1..] == Cut(b, pos + 5, pos + 5);
      } else if 256 <= |m| <= 511 {
        HoldsSplit(b, pos + 5, m, Avcc(tail));
        CutShifted(b, pos + 4, m);
        assert Cut(b, pos, pos + 1) == [n] + Cut(b, pos + 4, pos + 4);
        assert ([n] + Cut(b, pos + 4, pos + 4))[1..] == Cut(b, pos + 4, pos + 4);
      } else {
        CutFirst(b, pos, pos + 2);
        assert Cut(b, pos, pos + 1) == Cut(b, pos, pos + 2);
      }
    }
  }

  lemma NoCodeOn(b: Bytes, i: nat)
    requires i + 3 < |b| && b[i] != 0
    ensures CodeAt(b, i) == 0
  {
  }

  lemma SinglesSplit(nalus: seq<Nalu>)
    requires nalus != [] && |nalus[0]| == 1
    ensures SingleBytes(nalus) <==> SingleBytes(nalus[1..])
  {
    assert forall i :: 0 < i < |nalus| ==> nalus[i] == nalus[1..][i - 1];
  }

  /** Length-prefixed units come back exactly when the first length, 1 or 256 to 511, does not look like a start
      code, or when all units are single bytes. */
  lemma AvccExact(nalus: seq<Nalu>)
    requires nalus != [] && Prefixable(nalus) && Headed(nalus)
    ensures SplitNalus(Avcc(nalus)) == nalus
       <==> !(|nalus[0]| == 1 || 256 <= |nalus[0]| <= 511) || SingleBytes(nalus)
  {
    AvccSplits(nalus);
    if StartsWithCode(Avcc(nalus)) {
      hide PutU32, CodeAt;
      var b, n, rest := Avcc(nalus), nalus[0], nalus[1..];
      HoldsPrefix(b, []);
      assert b + [] == b;
      HoldsSplit(b, 0, PutU32(|n|), n + Avcc(rest));
      LengthBytes(b, 0, |n|);
      if |n| == 1 {
        assert FirstNalu(b, 0) == 4;
        CutSingles(b, 4, nalus);
      } else {
        assert FirstNalu(b, 0) == 3;
        HoldsSplit(b, 4, n, Avcc(rest));
        CutShifted(b, 3, n);
      }
    }
  }

  /** Units of 1 and 2 bytes come back as one of 7. */
  lemma AvccMisread()
    ensures var nalus := [[0x41], [0x41, 0x42]];
            && Prefixable(nalus) && Headed(nalus)
            && SplitNalus(Avcc(nalus)) == [[0x41, 0, 0, 0, 2, 0x41, 0x42]] != nalus
  {
    var nalus: seq<Nalu> := [[0x41], [0x41, 0x42]];
    var b: Bytes := [0, 0, 0, 1, 0x41, 0, 0, 0, 2, 0x41, 0x42];
    assert nalus[1..] == [[0x41, 0x42]] && nalus[1..][1..] == [];
    assert Avcc(nalus[1..]) == [0, 0, 0, 2, 0x41, 0x42];
    assert Avcc(nalus) == b;
    assert FirstNalu(b, 0) == 4;
    assert Cut(b, 4, 8) == [b[4..]];
    assert Cut(b, 4, 6) == Cut(b, 4, 7) == Cut(b, 4, 8);
    assert Cut(b, 4, 4) == Cut(b, 4, 5) == Cut(b, 4, 6);
  }

  /** Of input with no framing at all, only the last three bytes remain. */
  lemma {:induction false} Unframed(b: Bytes, i: nat)
    requires i + 3 <= |b| && forall k :: i <= k && k + 3 < |b| ==> CodeAt(b, k) == 0
    ensures FirstNalu(b, i) == |b| - 3
    decreases |b| - i
  {
    if i + 3 < |b| {
      assert CodeAt(b, i) == 0;
      Unframed(b, i + 1);
    }
  }

  /** Without start code or lengths, input comes back whole exactly up to three bytes. */
  lemma UnframedCut(b: Bytes)
    requires b != [] && forall k :: 0 <= k && k + 3 < |b| ==> CodeAt(b, k) == 0
    ensures SplitAnnexB(b) == [if |b| <= 3 then b else b[|b| - 3..]]
    ensures SplitAnnexB(b) == [b] <==> |b| <= 3
    ensures |b| < 5 || WalkAvcc(b, 0).None? ==> SplitNalus(b) == SplitAnnexB(b)
  {
    if |b| > 3 {
      Unframed(b, 0);
    } else {
      assert FirstNalu(b, 0) == 0 && b[0..] == b;
    }
  }

  // ------------------------------------------------------------------
  // Any bytes
  // ------------------------------------------------------------------

  /** A start code begins at `k`, with at least one byte after a 3-byte one. */
  ghost predicate CodeBegins(b: Bytes, k: int) {
    && 0 <= k && k + 3 < |b| && b[k] == 0 && b[k + 1] == 0
    && (b[k + 2] == 1 || (b[k + 2] == 0 && b[k + 3] == 1))
  }

  ghost predicate NoCode(b: Bytes, from: int, to: int) {
    forall k :: from <= k < to ==> !CodeBegins(b, k)
  }

  /** From `at` on the buffer is codes and the bytes up to where the next code begins. */
  ghost predicate Parted(b: Bytes, at: nat, units: seq<Unit>)
    decreases |units|
  {
    if units == [] then at == |b|
    else
      var from := at + if units[0].long then 4 else 3;
      var to := from + |units[0].nalu|;
      && CodeBegins(b, at) && units[0].long == (b[at + 2] == 0) && to <= |b|
      && units[0].nalu == b[from..to] && NoCode(b, from, to) && Parted(b, to, units[1..])
  }

  ghost function WithBytes(units: seq<Unit>): seq<Nalu> {
    if units == [] then [] else (if units[0].nalu == [] then [] else [units[0].nalu]) + WithBytes(units[1..])
  }

  lemma CodeAtBegins(b: Bytes, i: nat)
    requires i + 3 < |b|
    ensures CodeAt(b, i) > 0 <==> CodeBegins(b, i)
    ensures CodeAt(b, i) > 0 ==> CodeAt(b, i) == if b[i + 2] == 0 then 4 else 3
  {
  }

  lemma {:induction false} CutParted(b: Bytes, start: nat, i: nat) returns (n: Nalu, units: seq<Unit>)
    requires start <= i && start <= |b| && NoCode(b, start, i)
    ensures start + |n| <= |b| && n == b[start..start + |n|] && NoCode(b, start, start + |n|)
    ensures Parted(b, start + |n|, units) && Cut(b, start, i) == (if n == [] then [] else [n]) + WithBytes(units)
    decreases |b| - i
  {
    hide CodeAt, CodeBegins, Cut, Parted;
    CutStep(b, start, i);
    if i + 3 >= |b| {
      n, units := b[start..], [];
      assert NoCode(b, i, |b|) by {
        NoRoom(b, i);
      }
      PartedNone(b);
    } else {
      var c := CodeAt(b, i);
      CodeAtBegins(b, i);
      if c > 0 {
        var next, rest := CutParted(b, i + c, i + c);
        n, units := b[start..i], [Unit(b[i + 2] == 0, next)] + rest;
        PartedOne(b, i, next, rest);
      } else {
        n, units := CutParted(b, start, i + 1);
      }
    }
  }

  lemma CutStep(b: Bytes, start: nat, i: nat)
    requires start <= i
    ensures Cut(b, start, i) ==
              if i + 3 >= |b| then (if start < |b| then [b[start..]] else [])
              else if CodeAt(b, i) == 0 then Cut(b, start, i + 1)
              else (if i > start then [b[start..i]] else []) + Cut(b, i + CodeAt(b, i), i + CodeAt(b, i))
  {
    hide CodeAt;
  }

  lemma NoRoom(b: Bytes, i: nat)
    requires i + 3 >= |b|
    ensures NoCode(b, i, |b|)
  {
  }

  lemma PartedNone(b: Bytes)
    ensures Parted(b, |b|, []) && WithBytes([]) == []
  {
  }

  lemma {:induction false} FirstBegins(b: Bytes, i: nat)
    ensures var f := FirstNalu(b, i);
            NoCode(b, i, |b|) || exists at: nat ::
              i <= at && CodeBegins(b, at) && NoCode(b, i, at) && f == at + if b[at + 2] == 0 then 4 else 3
    decreases |b| - i
  {
    hide CodeAt;
    if i + 3 < |b| {
      CodeAtBegins(b, i);
      if CodeAt(b, i) == 0 {
        FirstBegins(b, i + 1);
      }
    }
  }

  /** Whatever the bytes, with a start code in them: they are some bytes before the first code, which are dropped, and
      then codes and units, and what comes out are the units that are not empty, in order. */
  lemma AnyBytesSplit(b: Bytes) returns (at: nat, units: seq<Unit>)
    requires exists k :: CodeBegins(b, k)
    ensures NoCode(b, 0, at) && units != [] && Parted(b, at, units) && SplitAnnexB(b) == WithBytes(units)
  {
    hide Cut, FirstNalu, Parted;
    FirstBegins(b, 0);
    var k :| CodeBegins(b, k);
    assert !NoCode(b, 0, |b|);
    at :| CodeBegins(b, at) && NoCode(b, 0, at) && FirstNalu(b, 0) == at + if b[at + 2] == 0 then 4 else 3;
    var start := FirstNalu(b, 0);
    var n, rest := CutParted(b, start, start);
    units := [Unit(b[at + 2] == 0, n)] + rest;
    PartedOne(b, at, n, rest);
  }

  lemma PartedOne(b: Bytes, at: nat, n: Nalu, rest: seq<Unit>)
    requires CodeBegins(b, at)
    requires var from := at + if b[at + 2] == 0 then 4 else 3;
             && from + |n| <= |b| && n == b[from..from + |n|] && NoCode(b, from, from + |n|)
             && Parted(b, from + |n|, rest)
    ensures var units := [Unit(b[at + 2] == 0, n)] + rest;
            Parted(b, at, units) && WithBytes(units) == (if n == [] then [] else [n]) + WithBytes(rest)
  {
    var units := [Unit(b[at + 2] == 0, n)] + rest;
    assert units[1..] == rest;
    hide CodeBegins, NoCode;
  }

  // ------------------------------------------------------------------
  // The loops
  // ------------------------------------------------------------------

  method SplitLoop(b: Bytes) returns (nalus: seq<Nalu>)
    ensures nalus == SplitAnnexB(b)
  {
    hide CodeAt;
    nalus := [];
    var i := 0;
    while i + 3 < |b|
      invariant 0 <= i && FirstNalu(b, i) == FirstNalu(b, 0)
    {
      var c := CodeAt(b, i);
      if c > 0 {
        i := i + c;
        break;
      }
      i := i + 1;
    }
    var start := i;
    assert i == FirstNalu(b, 0);
    while i + 3 < |b|
      invariant 0 <= start <= i
      invariant nalus + Cut(b, start, i) == SplitAnnexB(b)
      decreases |b| - i
    {
      var c := CodeAt(b, i);
      if c > 0 {
        ghost var rest := Cut(b, i + c, i + c);
        if i > start {
          assert nalus + ([b[start..i]] + rest) == (nalus + [b[start..i]]) + rest;
          nalus := nalus + [b[start..i]];
        } else {
          assert [] + rest == rest;
        }
        i := i + c;
        start := i;
        continue;
      }
      i := i + 1;
    }
    if start < |b| {
      nalus := nalus + [b[start..]];
    } else {
      assert nalus + [] == nalus;
    }
  }

  method TryAvcc(b: Bytes) returns (r: Option<seq<Nalu>>)
    ensures r == if |b| < 5 then None else WalkAvcc(b, 0)
  {
    hide GetU32;
    if |b| < 5 {
      return None;
    }
    ghost var all := WalkAvcc(b, 0);
    var nalus: seq<Nalu>, off := [], 0;
    assert all.Some? ==> [] + all.value == all.value;
    while off < |b|
      invariant 0 <= off <= |b| && all == Behind(nalus, WalkAvcc(b, off))
      decreases |b| - off
    {
      if off + 4 > |b| {
        return None;
      }
      var len := GetU32(b, off) as nat;
      ghost var before := off;
      off := off + 4;
      if len == 0 || off + len > |b| || b[off] >= 0x80 {
        return None;
      }
      ghost var rest := WalkAvcc(b, off + len);
      assert rest.Some? ==> nalus + ([b[off..off + len]] + rest.value) == (nalus + [b[off..off + len]]) + rest.value;
      nalus := nalus + [b[off..off + len]];
      off := off + len;
    }
    assert nalus + [] == nalus;
    r := Some(nalus);
  }

  ghost function Behind(front: seq<Nalu>, rest: Option<seq<Nalu>>): Option<seq<Nalu>> {
    match rest
    case None => None
    case Some(more) => Some(front + more)
  }

  method Split(b: Bytes) returns (nalus: seq<Nalu>)
    ensures nalus == SplitNalus(b)
  {
    hide WalkAvcc, SplitAnnexB;
    if StartsWithCode(b) {
      nalus := SplitLoop(b);
      return;
    }
    var avcc := TryAvcc(b);
    if avcc.Some? {
      return avcc.value;
    }
    nalus := SplitLoop(b);
  }

  method JoinedSize(nalus: seq<Nalu>) returns (total: nat)
    ensures total == |JoinAnnexB(nalus)|
  {
    total := 0;
    assert nalus[0..] == nalus;
    for i := 0 to |nalus|
      invariant total + |JoinAnnexB(nalus[i..])| == |JoinAnnexB(nalus)|
    {
      assert nalus[i..][1..] == nalus[i + 1..];
      total := total + 4 + |nalus[i]|;
    }
    assert nalus[|nalus|..] == [];
  }

  /** `_joinAnnexB`: measures, then fills one buffer. */
  method Join(nalus: seq<Nalu>) returns (out: Bytes)
    ensures out == JoinAnnexB(nalus)
  {
    var total := JoinedSize(nalus);
    assert nalus[0..] == nalus;
    var buf := new byte[total];
    var off := 0;
    for j := 0 to |nalus|
      invariant 0 <= off && off + |JoinAnnexB(nalus[j..])| == buf.Length
      invariant buf[..off] + JoinAnnexB(nalus[j..]) == JoinAnnexB(nalus)
    {
      assert nalus[j..][1..] == nalus[j + 1..];
      ghost var before, rest := buf[..off], JoinAnnexB(nalus[j + 1..]);
      Copy([0, 0, 0, 1], buf, off);
      Copy(nalus[j], buf, off + 4);
      assert ((before + [0, 0, 0, 1]) + nalus[j]) + rest == before + ([0, 0, 0, 1] + nalus[j] + rest);
      off := off + 4 + |nalus[j]|;
    }
    assert nalus[|nalus|..] == [];
    out := buf[..];
    assert out == buf[..off];
  }
}
