/**
 One-byte header extensions of src/rtp.js (RFC 5285 section 4.2): the block's parser and writer.
 */
module HeaderExt {
  import opened Buffers
  import opened Options
  import opened Wire

  const PROFILE_ONE_BYTE := 0xBEDE

  /** The 4-bit id field. */
  type ExtId = n: int | 0 <= n < 16

  /** A JavaScript object with these ids as keys, which iterates in ascending order. */
  type Exts = map<ExtId, Bytes>

  // ------------------------------------------------------------------
  // Parser
  // ------------------------------------------------------------------

  /** The entries found from offset `i` on, over those found before. */
  function ReadFrom(x: Bytes, i: nat, found: Exts): Exts
    decreases |x| - i
  {
    if i >= |x| then found
    else if x[i] == 0 then ReadFrom(x, i + 1, found)
    else
      var id: ExtId, len := x[i] / 16, x[i] as int % 16 + 1;
      if id == 15 || i + 1 + len > |x| then found
      else ReadFrom(x, i + 1 + len, found[id := x[i + 1..i + 1 + len]])
  }

  function ParseExtensions(x: Bytes): Exts {
    ReadFrom(x, 0, map[])
  }

  /** What a block can say: no id 15, 1 to 16 bytes each, and no single byte under id 0, whose header byte
      would be zero and read as padding. */
  ghost predicate Sayable(m: Exts) {
    forall id :: id in m ==> id != 15 && 1 <= |m[id]| <= 16 && (id == 0 ==> |m[id]| != 1)
  }

  lemma {:induction false} ReadSayable(x: Bytes, i: nat, found: Exts)
    requires Sayable(found)
    ensures Sayable(ReadFrom(x, i, found))
    decreases |x| - i
  {
    if i < |x| {
      if x[i] == 0 {
        ReadSayable(x, i + 1, found);
      } else {
        var id: ExtId, len := x[i] / 16, x[i] as int % 16 + 1;
        if id != 15 && i + 1 + len <= |x| {
          ReadSayable(x, i + 1 + len, found[id := x[i + 1..i + 1 + len]]);
        }
      }
    }
  }

  // ------------------------------------------------------------------
  // Writer
  // ------------------------------------------------------------------

  /** The length field can express every value. */
  ghost predicate Measured(m: Exts) {
    forall id :: id in m ==> 1 <= |m[id]| <= 16
  }

  predicate InRange(m: Exts, id: nat)
    decreases 16 - id
  {
    id >= 16 || ((id in m ==> 1 <= |m[id]| <= 16) && InRange(m, id + 1))
  }

  lemma {:induction false} InRangeFrom(m: Exts, id: nat)
    ensures InRange(m, id) <==> forall k: ExtId :: k >= id && k in m ==> 1 <= |m[k]| <= 16
    decreases 16 - id
  {
    if id < 16 {
      InRangeFrom(m, id + 1);
      assert forall k: ExtId :: k in m && k >= id ==> k == id || k >= id + 1;
    }
  }

  function Element(id: ExtId, data: Bytes): (e: Bytes)
    requires 1 <= |data| <= 16
    ensures |e| == 1 + |data|
  {
    [id * 16 + |data| - 1] + data
  }

  function Elements(m: Exts, id: nat): (e: Bytes)
    requires Measured(m)
    ensures id <= 16 ==> |e| <= 17 * (16 - id)
    decreases 16 - id
  {
    if id >= 16 then []
    else (if id in m then Element(id, m[id]) else []) + Elements(m, id + 1)
  }

  lemma ElementsStep(m: Exts, id: nat)
    requires Measured(m) && id < 16
    ensures Elements(m, id) == (if id in m then Element(id, m[id]) else []) + Elements(m, id + 1)
  {
  }

  lemma ElementsEnd(m: Exts)
    requires Measured(m)
    ensures Elements(m, 16) == []
  {
  }

  function PadTo4(n: nat): (p: nat)
    ensures p < 4 && (n + p) % 4 == 0
  {
    (4 - n % 4) % 4
  }

  function Block(m: Exts): (b: Bytes)
    requires Measured(m)
    ensures 4 <= |b| <= 276
  {
    var e := Elements(m, 0);
    var pad := PadTo4(|e|);
    PutU16(PROFILE_ONE_BYTE) + PutU16((|e| + pad) / 4) + (e + Zeros(pad))
  }

  /** The written block, or nothing when a value's length is outside 1..16: the source throws. */
  function WriteExtensions(m: Exts): (b: Option<Bytes>)
    ensures b.Some? <==> Measured(m)
  {
    InRangeFrom(m, 0);
    if InRange(m, 0) then Some(Block(m)) else None
  }

  // ------------------------------------------------------------------
  // Round trip
  // ------------------------------------------------------------------

  function Below(m: Exts, id: nat): Exts {
    map k | k in m && k < id :: m[k]
  }

  lemma {:induction false} ReadPadding(x: Bytes, i: nat, found: Exts)
    requires i <= |x| && forall k :: i <= k < |x| ==> x[k] == 0
    ensures ReadFrom(x, i, found) == found
    decreases |x| - i
  {
    if i < |x| {
      ReadPadding(x, i + 1, found);
    }
  }

  lemma PaddingRead(x: Bytes, i: nat, found: Exts, pad: nat)
    requires Holds(x, i, Zeros(pad)) && i + pad == |x|
    ensures ReadFrom(x, i, found) == found
  {
    assert forall k :: i <= k < |x| ==> x[k] == x[i..i + pad][k - i];
    ReadPadding(x, i, found);
  }

  lemma ReadElement(x: Bytes, i: nat, id: ExtId, data: Bytes, found: Exts)
    requires 1 <= |data| <= 16 && id != 15 && (id == 0 ==> |data| != 1)
    requires Holds(x, i, Element(id, data))
    ensures ReadFrom(x, i, found) == ReadFrom(x, i + |Element(id, data)|, found[id := data])
  {
    var b: byte := id * 16 + |data| - 1;
    assert Element(id, data)[0] == b && x[i..i + 1 + |data|][0] == b;
    assert x[i] == b;
    assert b / 16 == id && b as int % 16 + 1 == |data|;
    assert x[i + 1..i + 1 + |data|] == Element(id, data)[1..];
  }

  lemma {:induction false} ReadElements(x: Bytes, i: nat, m: Exts, id: nat, pad: nat)
    requires Sayable(m) && id <= 16
    requires Holds(x, i, Elements(m, id) + Zeros(pad)) && i + |Elements(m, id)| + pad == |x|
    ensures ReadFrom(x, i, Below(m, id)) == m
    decreases 16 - id
  {
    hide Element, Elements, Holds;
    HoldsSplit(x, i, Elements(m, id), Zeros(pad));
    if id == 16 {
      ElementsEnd(m);
      assert Below(m, id) == m;
      PaddingRead(x, i, m, pad);
    } else if id in m {
      ElementsStep(m, id);
      var e := Element(id, m[id]);
      assert Elements(m, id) + Zeros(pad) == e + (Elements(m, id + 1) + Zeros(pad));
      HoldsSplit(x, i, e, Elements(m, id + 1) + Zeros(pad));
      ReadElement(x, i, id, m[id], Below(m, id));
      assert Below(m, id)[id := m[id]] == Below(m, id + 1);
      ReadElements(x, i + |e|, m, id + 1, pad);
    } else {
      assert Below(m, id) == Below(m, id + 1);
      ElementsStep(m, id);
      assert Elements(m, id) == Elements(m, id + 1);
      ReadElements(x, i, m, id + 1, pad);
    }
  }

  /** A written block reads back as the map it was written from exactly when a block can say that map. */
  lemma BlockRoundTrip(m: Exts)
    requires Measured(m)
    ensures GetU16(Block(m), 0) == PROFILE_ONE_BYTE
    ensures 4 + GetU16(Block(m), 2) * 4 == |Block(m)|
    ensures ParseExtensions(Block(m)[4..]) == m <==> Sayable(m)
  {
    hide Elements;
    var e := Elements(m, 0);
    var pad := PadTo4(|e|);
    var x := Block(m)[4..];
    assert x == e + Zeros(pad);
    ReadSayable(x, 0, map[]);
    if Sayable(m) {
      assert x == x + [];
      HoldsPrefix(x, []);
      assert Below(m, 0) == map[];
      ReadElements(x, 0, m, 0, pad);
    }
  }

  // ------------------------------------------------------------------
  // Any block
  // ------------------------------------------------------------------

  /** What a block is made of: padding bytes anywhere, and elements. */
  datatype Item = Pad | Elem(id: ExtId, data: Bytes)

  ghost predicate Readable(e: Item) {
    e.Elem? ==> e.id != 15 && 1 <= |e.data| <= 16 && (e.id == 0 ==> |e.data| != 1)
  }

  ghost predicate AllReadable(items: seq<Item>) {
    forall i :: 0 <= i < |items| ==> Readable(items[i])
  }

  ghost function ItemBytes(e: Item): (b: Bytes)
    requires Readable(e)
    ensures |b| >= 1
  {
    if e.Pad? then [0] else [e.id * 16 + |e.data| - 1] + e.data
  }

  ghost function AllBytes(items: seq<Item>): Bytes
    requires AllReadable(items)
  {
    if items == [] then [] else ItemBytes(items[0]) + AllBytes(items[1..])
  }

  /** The last element under each id. */
  ghost function LastOfEach(items: seq<Item>): Exts {
    if items == [] then map[]
    else
      var before, e := LastOfEach(items[..|items| - 1]), items[|items| - 1];
      if e.Pad? then before else before[e.id := e.data]
  }

  /** Where reading ends: at the end, at the reserved id 15, or at an element longer than what is left. */
  ghost predicate Ends(tail: Bytes) {
    tail == [] || (tail[0] != 0 && (tail[0] / 16 == 15 || 1 + tail[0] % 16 + 1 > |tail|))
  }

  lemma ReadItem(x: Bytes, i: nat, e: Item, found: Exts)
    requires Readable(e) && Holds(x, i, ItemBytes(e))
    ensures ReadFrom(x, i, found) ==
              ReadFrom(x, i + |ItemBytes(e)|, if e.Pad? then found else found[e.id := e.data])
  {
    if e.Pad? {
      assert x[i] == x[i..i + 1][0];
    } else {
      assert ItemBytes(e) == Element(e.id, e.data);
      ReadElement(x, i, e.id, e.data, found);
    }
  }

  lemma ReadEnd(x: Bytes, i: nat, tail: Bytes, found: Exts)
    requires Ends(tail) && i <= |x| && x[i..] == tail
    ensures ReadFrom(x, i, found) == found
  {
    if tail != [] {
      assert x[i] == tail[0] && |x| - i == |tail|;
    }
  }

  /** One item in front of the rest of the block. */
  lemma ItemInFront(x: Bytes, i: nat, b: Bytes, rest: Bytes)
    requires i <= |x| && x[i..] == b + rest
    ensures Holds(x, i, b) && x[i + |b|..] == rest
  {
    assert x[i..][..|b|] == b && x[i..][|b|..] == rest;
  }

  lemma LastStep(done: seq<Item>, e: Item)
    ensures LastOfEach(done + [e]) == if e.Pad? then LastOfEach(done) else LastOfEach(done)[e.id := e.data]
  {
    assert (done + [e])[..|done|] == done;
  }

  lemma {:induction false} ReadItems(x: Bytes, i: nat, items: seq<Item>, done: seq<Item>, tail: Bytes)
    requires AllReadable(items) && Ends(tail) && i <= |x| && x[i..] == AllBytes(items) + tail
    ensures ReadFrom(x, i, LastOfEach(done)) == LastOfEach(done + items)
    decreases |items|
  {
    hide ItemBytes, ReadFrom, LastOfEach, Ends, Holds;
    if items == [] {
      assert done + items == done && x[i..] == tail;
      ReadEnd(x, i, tail, LastOfEach(done));
    } else {
      var e, rest := items[0], items[1..];
      var b := ItemBytes(e);
      assert AllBytes(items) + tail == b + (AllBytes(rest) + tail);
      ItemInFront(x, i, b, AllBytes(rest) + tail);
      ReadItem(x, i, e, LastOfEach(done));
      LastStep(done, e);
      ReadItems(x, i + |b|, rest, done + [e], tail);
      assert done + items == (done + [e]) + rest;
    }
  }

  /** Any block, also another sender's: padding between elements is skipped, later elements replace earlier ones
      under the same id, and reading ends as it must. */
  lemma BlockRead(items: seq<Item>, tail: Bytes)
    requires AllReadable(items) && Ends(tail)
    ensures ParseExtensions(AllBytes(items) + tail) == LastOfEach(items)
  {
    var x := AllBytes(items) + tail;
    assert x[0..] == x && [] + items == items;
    ReadItems(x, 0, items, [], tail);
  }

  lemma NextItem(x: Bytes) returns (e: Item, n: nat)
    requires !Ends(x)
    ensures 0 < n <= |x| && Readable(e) && ItemBytes(e) == x[..n]
  {
    e, n := Pad, 1;
    if x[0] != 0 {
      n := 1 + x[0] % 16 + 1;
      e := Elem(x[0] / 16, x[1..n]);
    }
  }

  /** There is no other kind of block. */
  lemma {:induction false} EveryBlock(x: Bytes) returns (items: seq<Item>, tail: Bytes)
    ensures AllReadable(items) && Ends(tail) && x == AllBytes(items) + tail
    decreases |x|
  {
    hide Ends, Readable, ItemBytes;
    items, tail := [], x;
    if !Ends(x) {
      var e, n := NextItem(x);
      var rest;
      rest, tail := EveryBlock(x[n..]);
      items := [e] + rest;
      assert items[1..] == rest;
      assert x == x[..n] + (AllBytes(rest) + tail) == (x[..n] + AllBytes(rest)) + tail;
    }
  }

  // ------------------------------------------------------------------
  // The loops
  // ------------------------------------------------------------------

  /** `parseExtensions`. */
  method ParseLoop(x: Bytes) returns (exts: Exts)
    ensures exts == ParseExtensions(x)
  {
    exts := map[];
    var i := 0;
    while i < |x|
      invariant 0 <= i && ReadFrom(x, i, exts) == ParseExtensions(x)
      decreases |x| - i
    {
      var b := x[i];
      if b == 0 {
        i := i + 1;
        continue;
      }
      var id: ExtId, len := b / 16, b as int % 16 + 1;
      i := i + 1;
      if id == 15 {
        break;
      }
      if i + len > |x| {
        break;
      }
      exts := exts[id := x[i..i + len]];
      i := i + len;
    }
  }

  /** `writeExtensions`: measures, then fills one buffer. */
  method WriteLoop(m: Exts) returns (b: Option<Bytes>)
    ensures b == WriteExtensions(m)
  {
    hide Element, Elements, InRange, Block;
    InRangeFrom(m, 0);
    var dataSize := 0;
    for id := 0 to 16
      invariant forall k: ExtId :: k < id && k in m ==> 1 <= |m[k]| <= 16
      invariant Measured(m) ==> dataSize + |Elements(m, id)| == |Elements(m, 0)|
    {
      if Measured(m) {
        ElementsStep(m, id);
      }
      if id in m {
        if |m[id]| < 1 || |m[id]| > 16 {
          return None;
        }
        dataSize := dataSize + 1 + |m[id]|;
      }
    }
    assert Measured(m);
    ElementsEnd(m);
    var paddedSize := (dataSize + 3) / 4 * 4;
    assert paddedSize == dataSize + PadTo4(dataSize);
    var buf := Fill(m, dataSize, paddedSize);
    b := Some(buf);
  }

  method Fill(m: Exts, dataSize: nat, paddedSize: nat) returns (b: Bytes)
    requires Measured(m) && dataSize == |Elements(m, 0)| && paddedSize == dataSize + PadTo4(dataSize)
    ensures b == Block(m)
  {
    hide Element, Elements, Block, PadTo4, PutU16;
    ghost var e := Elements(m, 0);
    var buf := new byte[4 + paddedSize];
    WriteU16(buf, 0, PROFILE_ONE_BYTE);
    WriteU16(buf, 2, paddedSize / 4);
    ghost var head := PutU16(PROFILE_ONE_BYTE) + PutU16(paddedSize / 4);
    assert buf[..4] == head;
    var off := 4;
    for id := 0 to 16
      invariant 4 <= off && off + |Elements(m, id)| == 4 + dataSize
      invariant buf[..off] + Elements(m, id) == head + e
    {
      ElementsStep(m, id);
      if id in m {
        ghost var before, rest := buf[..off], Elements(m, id + 1);
        Copy(Element(id, m[id]), buf, off);
        assert (before + Element(id, m[id])) + rest == before + (Element(id, m[id]) + rest);
        off := off + 1 + |m[id]|;
      }
    }
    ElementsEnd(m);
    assert buf[..off] == head + e;
    ZeroFill(buf, off);
    b := buf[..];
    BlockIs(m);
    assert (head + e) + Zeros(PadTo4(dataSize)) == head + (e + Zeros(PadTo4(dataSize)));
  }

  method ZeroFill(buf: array<byte>, from: nat)
    requires from <= buf.Length
    modifies buf
    ensures buf[..] == old(buf[..from]) + Zeros(buf.Length - from)
  {
    for off := from to buf.Length
      invariant buf[..off] == old(buf[..from]) + Zeros(off - from)
    {
      buf[off] := 0;
      assert buf[..off + 1] == buf[..off] + [0];
    }
    assert buf[..] == buf[..buf.Length];
  }

  lemma BlockIs(m: Exts)
    requires Measured(m)
    ensures var e := Elements(m, 0); var pad := PadTo4(|e|);
            && (|e| + pad) / 4 < 0x1_0000
            && Block(m) == PutU16(PROFILE_ONE_BYTE) + PutU16((|e| + pad) / 4) + (e + Zeros(pad))
  {
  }
}
