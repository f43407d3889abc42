/**
 The bytes of a FEC packet of src/flexfec.js: flexible mask (15, 46 or 109 positions), recovery fields
 and repair payload, written by the encoder and parsed by the decoder.
 */
module FlexFecCodec {
  import opened Bits
  import opened FlexFecModel
  import opened Options
  import opened SeqNum
  import opened Wire

  // ------------------------------------------------------------------
  // Masks
  // ------------------------------------------------------------------

  function NumOf(p: Bytes): u16
    requires |p| >= FIXED_HDR
  {
    GetU16(p, 2)
  }

  ghost predicate Longs(group: seq<Bytes>) {
    forall i :: 0 <= i < |group| ==> |group[i]| >= FIXED_HDR
  }

  function Nums(group: seq<Bytes>): seq<u16>
    requires Longs(group)
  {
    seq(|group|, i requires 0 <= i < |group| => NumOf(group[i]))
  }

  /** Position `j` is set when number base + j is protected. */
  function MaskOf(nums: seq<u16>, base: u16): seq<bool> {
    seq(MASK_BITS, j requires 0 <= j < MASK_BITS => Wrap(base + j) in nums)
  }

  /** How many positions the group needs. */
  function Needed(nums: seq<u16>, base: u16): nat {
    if nums == [] then 0
    else
      var rest := Needed(nums[..|nums| - 1], base);
      var d := Forward(base, nums[|nums| - 1]);
      if d + 1 > rest then d + 1 else rest
  }

  /** The positions of the form chosen for `needed`. */
  function FormSize(needed: nat): nat {
    if needed <= 15 then 15 else if needed <= 46 then 46 else MASK_BITS
  }

  /** The mask of one form; the leading bit of a chunk says whether another follows. */
  function MaskBytes(bits: seq<bool>, size: nat): Bytes
    requires |bits| == MASK_BITS && size in {15, 46, MASK_BITS}
  {
    if size == 15 then
      PutU16(Pack16([false] + bits[..15]))
    else if size == 46 then
      PutU16(Pack16([true] + bits[..15])) + PutU32(Pack32([false] + bits[15..46]))
    else
      PutU16(Pack16([true] + bits[..15])) + PutU32(Pack32([true] + bits[15..46]))
      + PutU32(Pack32(bits[46..78])) + PutU32(Pack32(bits[78..109] + [false]))
  }

  datatype Mask = Mask(bits: seq<bool>, end: nat)

  /** Reads the mask at offset `o`. */
  function ParseMask(p: Bytes, o: nat): Option<Mask> {
    if o + 2 > |p| then None
    else
      var c1 := Unpack(GetU16(p, o), 16);
      if !c1[0] then Some(Mask(c1[1..], o + 2))
      else if o + 6 > |p| then None
      else
        var c2 := Unpack(GetU32(p, o + 2), 32);
        if !c2[0] then Some(Mask(c1[1..] + c2[1..], o + 6))
        else if o + 14 > |p| then None
        else
          var hi, lo := Unpack(GetU32(p, o + 6), 32), Unpack(GetU32(p, o + 10), 32);
          Some(Mask(c1[1..] + c2[1..] + hi + lo[..31], o + 14))
  }

  lemma ReadWord16(p: Bytes, o: nat, bits: seq<bool>)
    requires |bits| == 16 && Holds(p, o, PutU16(Pack16(bits)))
    ensures Unpack(GetU16(p, o), 16) == bits
  {
    GetPut16(p, o, Pack16(bits));
    UnpackPack(bits);
  }

  lemma ReadWord32(p: Bytes, o: nat, bits: seq<bool>)
    requires |bits| == 32 && Holds(p, o, PutU32(Pack32(bits)))
    ensures Unpack(GetU32(p, o), 32) == bits
  {
    GetPut32(p, o, Pack32(bits));
    UnpackPack(bits);
  }

  /** The mask of any form parses back to its own positions. */
  lemma MaskRoundTrip(p: Bytes, o: nat, bits: seq<bool>, size: nat)
    requires |bits| == MASK_BITS && size in {15, 46, MASK_BITS}
    requires var m := MaskBytes(bits, size); o + |m| <= |p| && p[o..o + |m|] == m
    ensures ParseMask(p, o) == Some(Mask(bits[..size], o + |MaskBytes(bits, size)|))
  {
    hide Pack16, Pack32, PutU16, PutU32, GetU16, GetU32, Unpack;
    var m := MaskBytes(bits, size);
    assert p[o..o + 2] == m[..2];
    if size == 15 {
      ReadWord16(p, o, [false] + bits[..15]);
    } else {
      ReadWord16(p, o, [true] + bits[..15]);
      assert p[o + 2..o + 6] == m[2..6];
      if size == 46 {
        ReadWord32(p, o + 2, [false] + bits[15..46]);
        assert bits[..46] == bits[..15] + bits[15..46];
      } else {
        ReadWord32(p, o + 2, [true] + bits[15..46]);
        assert p[o + 6..o + 10] == m[6..10];
        assert p[o + 10..o + 14] == m[10..14];
        ReadWord32(p, o + 6, bits[46..78]);
        ReadWord32(p, o + 10, bits[78..109] + [false]);
        assert bits[..109] == bits[..15] + bits[15..46] + bits[46..78] + bits[78..109];
      }
    }
  }

  /** The numbers of the set positions, in circular order from the base. */
  function Select(bits: seq<bool>, base: u16, off: nat): seq<u16> {
    if bits == [] then []
    else (if bits[0] then [Wrap(base + off)] else []) + Select(bits[1..], base, off + 1)
  }

  /** The position of `n` is in range and set. */
  ghost predicate IsSet(bits: seq<bool>, base: u16, off: nat, n: u16) {
    off <= Forward(base, n) < off + |bits| && bits[Forward(base, n) - off]
  }

  lemma {:induction false} SelectMember(bits: seq<bool>, base: u16, off: nat, n: u16)
    requires off + |bits| <= 0x1_0000
    ensures n in Select(bits, base, off) <==> IsSet(bits, base, off, n)
    decreases |bits|
  {
    if bits != [] {
      hide Wrap;
      SelectMember(bits[1..], base, off + 1, n);
      ForwardWrap(base, off);
      hide Forward;
    }
  }

  /** In circular order from the base, without repetition. */
  ghost predicate Ascending(nums: seq<u16>, base: u16) {
    forall i, j :: 0 <= i < j < |nums| ==> Forward(base, nums[i]) < Forward(base, nums[j])
  }

  lemma {:induction false} SelectOrder(bits: seq<bool>, base: u16, off: nat)
    requires off + |bits| <= 0x1_0000
    ensures Ascending(Select(bits, base, off), base)
    decreases |bits|
  {
    if bits != [] {
      var rest, first := Select(bits[1..], base, off + 1), Wrap(base + off);
      SelectOrder(bits[1..], base, off + 1);
      ForwardWrap(base, off);
      hide Wrap, Forward;
      forall n | n in rest ensures Forward(base, first) < Forward(base, n) {
        SelectMember(bits[1..], base, off + 1, n);
      }
    }
  }

  lemma {:induction false} SelectPrefix(bits: seq<bool>, size: nat, base: u16, off: nat)
    requires size <= |bits| && forall j :: size <= j < |bits| ==> !bits[j]
    ensures Select(bits[..size], base, off) == Select(bits, base, off)
    decreases |bits|
  {
    if bits != [] {
      if size > 0 {
        assert bits[..size][1..] == bits[1..][..size - 1];
        SelectPrefix(bits[1..], size - 1, base, off + 1);
      } else {
        assert bits[1..][..0] == [];
        SelectPrefix(bits[1..], 0, base, off + 1);
      }
    }
  }

  lemma {:induction false} NeededBound(nums: seq<u16>, base: u16)
    ensures forall n :: n in nums ==> Forward(base, n) < Needed(nums, base)
    ensures nums != [] ==> exists n :: n in nums && Forward(base, n) + 1 == Needed(nums, base)
    decreases |nums|
  {
    if nums != [] {
      var last := nums[|nums| - 1];
      NeededBound(nums[..|nums| - 1], base);
      assert nums == nums[..|nums| - 1] + [last];
      if Forward(base, last) + 1 > Needed(nums[..|nums| - 1], base) {
        assert last in nums;
      }
    }
  }

  /** The full mask, before a form is chosen, names the numbers within reach. */
  lemma FullMaskNames(nums: seq<u16>, base: u16)
    ensures var r := Select(MaskOf(nums, base), base, 0);
            && (forall n :: n in r <==> n in nums && Forward(base, n) < MASK_BITS)
            && Ascending(r, base)
  {
    var bits := MaskOf(nums, base);
    SelectOrder(bits, base, 0);
    forall n: u16 ensures n in Select(bits, base, 0) <==> n in nums && Forward(base, n) < MASK_BITS {
      SelectMember(bits, base, 0, n);
      ForwardWrap(base, Forward(base, n));
    }
  }

  /** The chosen form has room for every set position. */
  lemma FormHolds(nums: seq<u16>, base: u16)
    ensures Select(MaskOf(nums, base)[..FormSize(Needed(nums, base))], base, 0) == Select(MaskOf(nums, base), base, 0)
  {
    var bits, size := MaskOf(nums, base), FormSize(Needed(nums, base));
    NeededBound(nums, base);
    forall j | size <= j < MASK_BITS ensures !bits[j] {
      assert Forward(base, Wrap(base + j)) == j;
    }
    SelectPrefix(bits, size, base, 0);
  }

  /** What the decoder makes of the mask: the numbers within reach of the longest form, in order. They are
      the group's numbers exactly when the group spans at most 109 numbers. */
  lemma MaskNames(nums: seq<u16>, base: u16)
    ensures var r := Select(MaskOf(nums, base)[..FormSize(Needed(nums, base))], base, 0);
            && (forall n :: n in r <==> n in nums && Forward(base, n) < MASK_BITS)
            && Ascending(r, base)
            && ((forall n :: n in r <==> n in nums) <==> Needed(nums, base) <= MASK_BITS)
  {
    hide MaskOf, Select, FormSize, Forward;
    FullMaskNames(nums, base);
    FormHolds(nums, base);
    NeededBound(nums, base);
  }

  // ------------------------------------------------------------------
  // The FEC packet
  // ------------------------------------------------------------------

  function SumOf(s: Sum, group: seq<Bytes>): Sum
    requires Longs(group)
    decreases |group|
  {
    if group == [] then s else SumOf(Add(s, group[0]), group[1..])
  }

  function LongestBody(group: seq<Bytes>): (n: nat)
    requires Longs(group)
    ensures forall i :: 0 <= i < |group| ==> |group[i]| - FIXED_HDR <= n
  {
    if group == [] then 0
    else
      var rest := LongestBody(group[..|group| - 1]);
      var last := |group[|group| - 1]| - FIXED_HDR;
      if last > rest then last else rest
  }

  /** What identifies the FEC stream. */
  datatype Config = Config(ssrc: u32, payloadType: byte, protectedSsrc: u32)

  function LowBytes(body: seq<nat>): Bytes {
    seq(|body|, i requires 0 <= i < |body| => body[i] % 0x100)
  }

  function Recovery(s: Sum, protectedSsrc: u32, snBase: u16): (b: Bytes)
    ensures |b| == 18
  {
    [s.b0 % 0x40, s.b1 % 0x100] + PutU16(s.len % 0x1_0000) + PutU32(s.ts % 0x1_0000_0000)
    + [1, 0, 0, 0] + PutU32(protectedSsrc) + PutU16(snBase)
  }

  /** The FEC packet of a group, sent with number `num`. */
  function BuildFec(cfg: Config, num: u16, group: seq<Bytes>): Bytes
    requires Longs(group) && group != []
  {
    var nums := Nums(group);
    var base := nums[0];
    var s := SumOf(Zero(LongestBody(group)), group);
    [0x80, cfg.payloadType % 0x80] + PutU16(num) + PutU32(GetU32(group[|group| - 1], 4)) + PutU32(cfg.ssrc)
    + (Recovery(s, cfg.protectedSsrc, base)
       + MaskBytes(MaskOf(nums, base), FormSize(Needed(nums, base))) + LowBytes(s.body))
  }

  function ParseFec(buf: Bytes): Option<Fec> {
    if |buf| < FIXED_HDR + 20 then None
    else
      var p := buf[FIXED_HDR..];
      if p[0] / 0x40 != 0 || p[8] != 1 then None
      else
        match ParseMask(p, 18)
        case None => None
        case Some(mask) =>
          var snBase := GetU16(p, 16);
          var seqs := Select(mask.bits, snBase, 0);
          if seqs == [] || mask.end > |p| then None
          else Some(Fec(GetU32(p, 12), snBase, seqs, Sum(p[0], p[1], GetU16(p, 2), GetU32(p, 4), p[mask.end..])))
  }

  /** Every field fits the bytes it is written in. */
  ghost predicate Fits(s: Sum) {
    s.b0 < 0x40 && s.b1 < 0x100 && s.len < 0x1_0000 && s.ts < 0x1_0000_0000
    && forall i :: 0 <= i < |s.body| ==> s.body[i] < 0x100
  }

  lemma AddFits(s: Sum, p: Bytes)
    requires Fits(s) && FIXED_HDR <= |p| < FIXED_HDR + 0x1_0000
    ensures Fits(Add(s, p))
  {
    Pow2Words();
    assert Pow2(6) == 0x40;
    XorBound(s.b0, p[0] % 0x40, 6);
    XorBound(s.b1, p[1], 8);
    XorBound(s.len, |p| - FIXED_HDR, 16);
    XorBound(s.ts, GetU32(p, 4), 32);
    hide GetU32;
    forall i | 0 <= i < |s.body| ensures Add(s, p).body[i] < 0x100 {
      XorBound(s.body[i], Padded(p, i), 8);
    }
  }

  lemma {:induction false} SumFits(s: Sum, group: seq<Bytes>)
    requires Longs(group) && Fits(s) && forall i :: 0 <= i < |group| ==> |group[i]| < FIXED_HDR + 0x1_0000
    ensures Fits(SumOf(s, group)) && |SumOf(s, group).body| == |s.body|
    decreases |group|
  {
    if group != [] {
      hide Fits, Add;
      AddFits(s, group[0]);
      SumFits(Add(s, group[0]), group[1..]);
    }
  }

  /** The fixed fields read back. */
  lemma RecoveryRead(p: Bytes, s: Sum, protectedSsrc: u32, snBase: u16)
    requires Fits(s) && |p| >= 18 && p[..18] == Recovery(s, protectedSsrc, snBase)
    ensures p[0] == s.b0 && p[1] == s.b1 && p[8] == 1
    ensures GetU16(p, 2) == s.len && GetU32(p, 4) == s.ts && GetU32(p, 12) == protectedSsrc && GetU16(p, 16) == snBase
  {
    hide PutU16, PutU32, GetU16, GetU32;
    var r := p[..18];
    hide Recovery;
    assert p[0] == r[0] && p[1] == r[1] && p[8] == r[8];
    assert p[2..4] == r[2..4] && p[4..8] == r[4..8] && p[12..16] == r[12..16] && p[16..18] == r[16..18];
    GetPut16(p, 2, s.len);
    GetPut32(p, 4, s.ts);
    GetPut32(p, 12, protectedSsrc);
    GetPut16(p, 16, snBase);
  }

  lemma BaseSelected(nums: seq<u16>)
    requires nums != []
    ensures Select(MaskOf(nums, nums[0])[..FormSize(Needed(nums, nums[0]))], nums[0], 0) != []
  {
    hide MaskOf, Select, FormSize, Needed;
    MaskNames(nums, nums[0]);
    assert Forward(nums[0], nums[0]) == 0;
  }

  lemma BuiltTail(cfg: Config, num: u16, group: seq<Bytes>)
    requires Longs(group) && group != []
    ensures var nums := Nums(group);
            var s := SumOf(Zero(LongestBody(group)), group);
            var m := MaskBytes(MaskOf(nums, nums[0]), FormSize(Needed(nums, nums[0])));
            var buf := BuildFec(cfg, num, group);
            |buf| >= FIXED_HDR && |m| >= 2 &&
            buf[FIXED_HDR..] == Recovery(s, cfg.protectedSsrc, nums[0]) + m + LowBytes(s.body)
  {
    hide MaskOf, Needed, SumOf, Zero, LowBytes, Recovery, Pack16, Pack32, PutU16, PutU32;
  }

  lemma ParseParts(buf: Bytes, s: Sum, protectedSsrc: u32, base: u16, bits: seq<bool>, size: nat)
    requires |bits| == MASK_BITS && size in {15, 46, MASK_BITS} && Fits(s)
    requires |buf| >= FIXED_HDR && |MaskBytes(bits, size)| >= 2
    requires buf[FIXED_HDR..] == Recovery(s, protectedSsrc, base) + MaskBytes(bits, size) + LowBytes(s.body)
    requires Select(bits[..size], base, 0) != []
    ensures ParseFec(buf) == Some(Fec(protectedSsrc, base, Select(bits[..size], base, 0), s))
  {
    hide MaskBytes, Select, ParseMask, Recovery;
    var m, p := MaskBytes(bits, size), buf[FIXED_HDR..];
    assert p[..18] == Recovery(s, protectedSsrc, base);
    RecoveryRead(p, s, protectedSsrc, base);
    assert p[18..18 + |m|] == m;
    MaskRoundTrip(p, 18, bits, size);
    assert p[18 + |m|..] == LowBytes(s.body) == s.body;
    hide GetU16, GetU32, LowBytes, Fits;
  }

  /** Parsing a built FEC packet gives the group's base, mask and sum. */
  lemma ParseBuilt(cfg: Config, num: u16, group: seq<Bytes>)
    requires Longs(group) && group != [] && forall i :: 0 <= i < |group| ==> |group[i]| < FIXED_HDR + 0x1_0000
    ensures var nums := Nums(group);
            var seqs := Select(MaskOf(nums, nums[0])[..FormSize(Needed(nums, nums[0]))], nums[0], 0);
            ParseFec(BuildFec(cfg, num, group)) ==
              Some(Fec(cfg.protectedSsrc, nums[0], seqs, SumOf(Zero(LongestBody(group)), group)))
  {
    var nums := Nums(group);
    SumFits(Zero(LongestBody(group)), group);
    BaseSelected(nums);
    BuiltTail(cfg, num, group);
    hide MaskBytes, Needed, Select, SumOf, BuildFec, ParseFec, Recovery, Zero, LowBytes;
    ParseParts(BuildFec(cfg, num, group), SumOf(Zero(LongestBody(group)), group), cfg.protectedSsrc, nums[0],
               MaskOf(nums, nums[0]), FormSize(Needed(nums, nums[0])));
  }

  // ------------------------------------------------------------------
  // What is read from a FEC packet
  // ------------------------------------------------------------------

  /** The mask is continued twice by the leading bit of its parts: 15, then 31, then 63 positions. */
  function Places(buf: Bytes): nat
    requires |buf| >= FIXED_HDR + 20
  {
    if !Bit(GetU16(buf, 30), 15) then 15
    else if |buf| < 36 || !Bit(GetU32(buf, 32), 31) then 46
    else 109
  }

  function RepairStart(places: nat): nat {
    if places == 15 then 32 else if places == 46 then 36 else 44
  }

  predicate PlaceSet(buf: Bytes, j: nat)
    requires |buf| >= FIXED_HDR + 20
    requires |buf| >= RepairStart(Places(buf)) && j < Places(buf)
  {
    if j < 15 then Bit(GetU16(buf, 30), 14 - j)
    else if j < 46 then Bit(GetU32(buf, 32), 45 - j)
    else if j < 78 then Bit(GetU32(buf, 36), 77 - j)
    else Bit(GetU32(buf, 40), 109 - j)
  }

  /** The mask lies in the buffer, and names something. */
  predicate NamesSome(buf: Bytes)
    requires |buf| >= FIXED_HDR + 20
  {
    |buf| >= RepairStart(Places(buf)) && exists j :: 0 <= j < Places(buf) && PlaceSet(buf, j)
  }

  lemma MaskRead(buf: Bytes)
    requires |buf| >= FIXED_HDR + 20
    ensures var mask := ParseMask(buf[FIXED_HDR..], 18);
            && (mask.Some? <==> |buf| >= RepairStart(Places(buf)))
            && (mask.Some? ==>
                  && FIXED_HDR + mask.value.end == RepairStart(Places(buf)) && |mask.value.bits| == Places(buf)
                  && forall j :: 0 <= j < Places(buf) ==> mask.value.bits[j] == PlaceSet(buf, j))
  {
    hide Bit;
    var p := buf[FIXED_HDR..];
    assert GetU16(p, 18) == GetU16(buf, 30);
    if |buf| >= 36 {
      assert GetU32(p, 20) == GetU32(buf, 32);
    }
    if |buf| >= 44 {
      assert GetU32(p, 24) == GetU32(buf, 36) && GetU32(p, 28) == GetU32(buf, 40);
    }
    hide GetU16, GetU32;
    var mask := ParseMask(p, 18);
    var c1 := Unpack(GetU16(buf, 30), 16);
    assert |c1| == 16 && c1[0] == Bit(GetU16(buf, 30), 15);
    if mask.Some? {
      forall j | 0 <= j < Places(buf) ensures j < |mask.value.bits| && mask.value.bits[j] == PlaceSet(buf, j) {
        if j < 15 {
          assert mask.value.bits[j] == c1[1..][j];
        }
      }
    }
  }

  /** Every buffer: what makes it a FEC packet, the numbers its mask names, and the fields it carries. */
  lemma FecRead(buf: Bytes)
    ensures ParseFec(buf).Some? <==>
            |buf| >= FIXED_HDR + 20 && buf[12] < 0x40 && buf[20] == 1 && NamesSome(buf)
    ensures ParseFec(buf).Some? ==>
              var f, places := ParseFec(buf).value, Places(buf);
              && f.ssrc == GetU32(buf, 24) && f.snBase == GetU16(buf, 28)
              && (forall n: u16 ::
                    n in f.seqs <==> Forward(f.snBase, n) < places && PlaceSet(buf, Forward(f.snBase, n)))
              && f.sum == Sum(buf[12], buf[13], GetU16(buf, 14), GetU32(buf, 16), buf[RepairStart(places)..])
  {
    if |buf| >= FIXED_HDR + 20 {
      var p := buf[FIXED_HDR..];
      assert GetU16(p, 2) == GetU16(buf, 14) && GetU16(p, 16) == GetU16(buf, 28);
      assert GetU32(p, 4) == GetU32(buf, 16) && GetU32(p, 12) == GetU32(buf, 24);
      MaskRead(buf);
      hide GetU16, GetU32, PlaceSet, ParseMask, Bit;
      var mask, base := ParseMask(p, 18), GetU16(buf, 28);
      if mask.Some? {
        var bits := mask.value.bits;
        hide Places, RepairStart;
        assert p[mask.value.end..] == buf[RepairStart(Places(buf))..];
        forall n: u16 ensures n in Select(bits, base, 0) <==> IsSet(bits, base, 0, n) {
          SelectMember(bits, base, 0, n);
        }
        NamesOne(bits, base);
        hide Select;
      }
    }
  }

  lemma NamesOne(bits: seq<bool>, base: u16)
    requires |bits| <= MASK_BITS && forall n: u16 :: n in Select(bits, base, 0) <==> IsSet(bits, base, 0, n)
    ensures Select(bits, base, 0) != [] <==> exists j :: 0 <= j < |bits| && bits[j]
  {
    hide Forward, Wrap, Select;
    if Select(bits, base, 0) != [] {
      assert Select(bits, base, 0)[0] in Select(bits, base, 0);
    }
    if j :| 0 <= j < |bits| && bits[j] {
      ForwardWrap(base, j);
      assert IsSet(bits, base, 0, Wrap(base + j));
    }
  }

  // ------------------------------------------------------------------
  // An encoder's packets are honest
  // ------------------------------------------------------------------

  /** A group the encoder may be given: packets of the stream, distinct numbers, the first one the base of a
      span of at most 109. */
  ghost predicate GoodGroup(group: seq<Bytes>, ssrc: u32, sent: Media) {
    && Longs(group) && group != []
    && (forall i :: 0 <= i < |group| ==> NumOf(group[i]) in sent && sent[NumOf(group[i])] == group[i])
    && (forall i, j :: 0 <= i < j < |group| ==> NumOf(group[i]) != NumOf(group[j]))
    && Needed(Nums(group), NumOf(group[0])) <= MASK_BITS
    && Stream(ssrc, sent)
  }

  /** The header of a FEC packet: version 2 and nothing else in the first byte, the type without marker, its own
      number, the time stamp of the group's last packet, and the SSRC of the FEC stream. */
  lemma FecHeader(cfg: Config, num: u16, group: seq<Bytes>)
    requires Longs(group) && group != []
    ensures var x, last := BuildFec(cfg, num, group), group[|group| - 1];
            && |x| >= FIXED_HDR && x[0] == 0x80 && x[1] == cfg.payloadType % 0x80
            && GetU16(x, 2) == num && x[4..8] == last[4..8] && GetU32(x, 8) == cfg.ssrc
  {
    hide MaskOf, Needed, SumOf, Zero, LowBytes, Recovery, MaskBytes, PutU16, PutU32, GetU16, GetU32;
    var x, last := BuildFec(cfg, num, group), group[|group| - 1];
    PutGet32(last, 4);
    assert x[2..4] == PutU16(num) && x[4..8] == PutU32(GetU32(last, 4)) && x[8..12] == PutU32(cfg.ssrc);
    GetPut16(x, 2, num);
    GetPut32(x, 8, cfg.ssrc);
  }

  lemma {:induction false} LongestIs(group: seq<Bytes>)
    requires Longs(group) && group != []
    ensures exists i :: 0 <= i < |group| && |group[i]| - FIXED_HDR == LongestBody(group)
    decreases |group|
  {
    var init := group[..|group| - 1];
    assert group[|group| - 1] == group[|init|];
    if init != [] {
      LongestIs(init);
      var i :| 0 <= i < |init| && |init[i]| - FIXED_HDR == LongestBody(init);
      assert group[i] == init[i];
    }
  }

  /** The furthest number of the group lies `span` - 1 ahead of the first. */
  ghost predicate SpanOf(group: seq<Bytes>, span: nat)
    requires Longs(group) && group != []
  {
    && (forall i :: 0 <= i < |group| ==> Forward(NumOf(group[0]), NumOf(group[i])) < span)
    && exists i :: 0 <= i < |group| && Forward(NumOf(group[0]), NumOf(group[i])) + 1 == span
  }

  /** A FEC packet is as long as it must be: the shortest mask that reaches the furthest number, and as many repair
      bytes as the longest payload; one protected stream, and nothing in the reserved bytes. */
  lemma FecShape(cfg: Config, num: u16, group: seq<Bytes>, span: nat, longest: nat)
    requires Longs(group) && group != [] && SpanOf(group, span)
    requires forall i :: 0 <= i < |group| ==> |group[i]| <= FIXED_HDR + longest
    requires exists i :: 0 <= i < |group| && |group[i]| == FIXED_HDR + longest
    ensures var x := BuildFec(cfg, num, group);
            && |x| == FIXED_HDR + 18 + (if span <= 15 then 2 else if span <= 46 then 6 else 14) + longest
            && x[FIXED_HDR + 8..FIXED_HDR + 12] == [1, 0, 0, 0]
  {
    var nums := Nums(group);
    LongestIs(group);
    SpanNeeded(group, span);
    SumLength(Zero(LongestBody(group)), group);
    BuiltTail(cfg, num, group);
    hide MaskOf, Needed, SumOf, Zero, Pack16, Pack32, PutU16, PutU32, BuildFec, LongestBody;
    var x := BuildFec(cfg, num, group);
    assert x[FIXED_HDR + 8..FIXED_HDR + 12] == x[FIXED_HDR..][8..12];
  }

  lemma SpanNeeded(group: seq<Bytes>, span: nat)
    requires Longs(group) && group != [] && SpanOf(group, span)
    ensures Needed(Nums(group), NumOf(group[0])) == span
  {
    hide Forward, Needed;
    var nums, base := Nums(group), NumOf(group[0]);
    NeededBound(nums, base);
    assert forall i :: 0 <= i < |group| ==> nums[i] == NumOf(group[i]) && nums[i] in nums;
    var n :| n in nums && Forward(base, n) + 1 == Needed(nums, base);
    var i :| 0 <= i < |nums| && nums[i] == n;
    var j :| 0 <= j < |group| && Forward(base, NumOf(group[j])) + 1 == span;
    assert nums[j] == NumOf(group[j]);
  }

  lemma {:induction false} SumLength(s: Sum, group: seq<Bytes>)
    requires Longs(group)
    ensures |SumOf(s, group).body| == |s.body|
    decreases |group|
  {
    if group != [] {
      SumLength(Add(s, group[0]), group[1..]);
    }
  }

  /** How many of the packets have the bit. */
  function Having(group: seq<Bytes>, has: Bytes -> bool): nat {
    if group == [] then 0 else (if has(group[0]) then 1 else 0) + Having(group[1..], has)
  }

  predicate Flipped(before: bool, n: nat) {
    before != (n % 2 == 1)
  }

  lemma {:induction false} SumFlips(s: Sum, group: seq<Bytes>, k: nat)
    requires Longs(group)
    ensures var t := SumOf(s, group);
            && |t.body| == |s.body|
            && Flipped(Bit(s.b0, k), Having(group, p => |p| > 0 && Bit(p[0] % 0x40, k))) == Bit(t.b0, k)
            && Flipped(Bit(s.b1, k), Having(group, p => |p| > 1 && Bit(p[1], k))) == Bit(t.b1, k)
            && Flipped(Bit(s.len, k), Having(group, p => |p| >= 12 && Bit(|p| - 12, k))) == Bit(t.len, k)
            && Flipped(Bit(s.ts, k), Having(group, p => |p| >= 8 && Bit(GetU32(p, 4), k))) == Bit(t.ts, k)
    decreases |group|
  {
    hide Bit, GetU32, Xor;
    if group != [] {
      var p := group[0];
      SumFlips(Add(s, p), group[1..], k);
      BitXor(s.b0, p[0] % 0x40, k);
      BitXor(s.b1, p[1], k);
      BitXor(s.len, |p| - FIXED_HDR, k);
      BitXor(s.ts, GetU32(p, 4), k);
    }
  }

  lemma {:induction false} BodyFlips(s: Sum, group: seq<Bytes>, i: nat, k: nat)
    requires Longs(group) && i < |s.body|
    ensures var t := SumOf(s, group);
            && |t.body| == |s.body|
            && Flipped(Bit(s.body[i], k), Having(group, p => |p| > 12 + i && Bit(p[12 + i], k))) == Bit(t.body[i], k)
    decreases |group|
  {
    hide Bit, GetU32, Xor;
    if group != [] {
      var p := group[0];
      BodyFlips(Add(s, p), group[1..], i, k);
      BitXor(s.body[i], Padded(p, i), k);
      BitNone(k);
    }
  }

  lemma {:induction false} BitNone(k: nat)
    ensures !Bit(0, k)
  {
    if k > 0 {
      BitNone(k - 1);
    }
  }

  /** Every bit a FEC packet carries tells whether an odd number of its group have it: of the first byte without the
      version, the second byte, the length behind the fixed header, the time stamp, and every byte behind the fixed
      header, where the shorter packets have none. */
  lemma GroupParity(group: seq<Bytes>, width: nat, k: nat)
    requires Longs(group)
    ensures var t := SumOf(Zero(width), group);
            && |t.body| == width
            && (Bit(t.b0, k) <==> Having(group, p => |p| > 0 && Bit(p[0] % 0x40, k)) % 2 == 1)
            && (Bit(t.b1, k) <==> Having(group, p => |p| > 1 && Bit(p[1], k)) % 2 == 1)
            && (Bit(t.len, k) <==> Having(group, p => |p| >= 12 && Bit(|p| - 12, k)) % 2 == 1)
            && (Bit(t.ts, k) <==> Having(group, p => |p| >= 8 && Bit(GetU32(p, 4), k)) % 2 == 1)
            && forall i :: 0 <= i < width ==>
                 (Bit(t.body[i], k) <==> Having(group, p => |p| > 12 + i && Bit(p[12 + i], k)) % 2 == 1)
  {
    hide Bit, GetU32, Xor, SumOf, Having;
    SumFlips(Zero(width), group, k);
    BitNone(k);
    forall i | 0 <= i < width
      ensures Bit(SumOf(Zero(width), group).body[i], k) <==>
              Having(group, p => |p| > 12 + i && Bit(p[12 + i], k)) % 2 == 1
    {
      BodyFlips(Zero(width), group, i, k);
    }
  }

  lemma {:induction false} SumIsTotal(s: Sum, group: seq<Bytes>, sent: Media)
    requires Longs(group) && Long(sent)
    requires forall i :: 0 <= i < |group| ==> NumOf(group[i]) in sent && sent[NumOf(group[i])] == group[i]
    ensures (forall n :: n in Nums(group) ==> n in sent) && SumOf(s, group) == Total(s, sent, Nums(group))
    decreases |group|
  {
    if group != [] {
      hide Add;
      SumIsTotal(Add(s, group[0]), group[1..], sent);
      assert Nums(group) == [NumOf(group[0])] + Nums(group[1..]);
      assert Nums(group)[1..] == Nums(group[1..]);
    }
  }

  /** Lists without repetition that have the same elements are permutations of each other. */
  lemma {:induction false} SameSetSameMultiset<T(!new)>(a: seq<T>, b: seq<T>)
    requires forall i, j :: 0 <= i < j < |a| ==> a[i] != a[j]
    requires forall i, j :: 0 <= i < j < |b| ==> b[i] != b[j]
    requires forall x :: x in a <==> x in b
    ensures multiset(a) == multiset(b)
  {
    forall x ensures multiset(a)[x] == multiset(b)[x] {
      CountOnce(a, x);
      CountOnce(b, x);
    }
  }

  lemma {:induction false} CountOnce<T>(a: seq<T>, x: T)
    requires forall i, j :: 0 <= i < j < |a| ==> a[i] != a[j]
    ensures multiset(a)[x] == if x in a then 1 else 0
  {
    if a != [] {
      CountOnce(a[1..], x);
      assert a == [a[0]] + a[1..];
    }
  }

  /** The decoder parses an encoder's packet into exactly the group, whatever it wraps across. */
  lemma GroupHonest(cfg: Config, num: u16, group: seq<Bytes>, sent: Media)
    requires GoodGroup(group, cfg.protectedSsrc, sent) && Long(sent)
    ensures var f := ParseFec(BuildFec(cfg, num, group));
            && f.Some? && Honest(f.value, cfg.protectedSsrc, sent)
            && multiset(f.value.seqs) == multiset(Nums(group))
            && Ascending(f.value.seqs, NumOf(group[0]))
  {
    var nums := Nums(group);
    var base := nums[0];
    GroupSizes(group, cfg.protectedSsrc, sent);
    ParseBuilt(cfg, num, group);
    MaskNames(nums, base);
    var seqs := Select(MaskOf(nums, base)[..FormSize(Needed(nums, base))], base, 0);
    hide BuildFec, ParseFec, Select, MaskOf, FormSize, Forward, Add, Needed, LongestBody, GoodGroup;
    SameSetSameMultiset(seqs, nums);
    SumIsTotal(Zero(LongestBody(group)), group, sent);
    TotalAnyOrder(Zero(LongestBody(group)), sent, nums, seqs);
    TotalBody(Zero(LongestBody(group)), sent, nums);
  }

  lemma GroupSizes(group: seq<Bytes>, ssrc: u32, sent: Media)
    requires GoodGroup(group, ssrc, sent) && Long(sent)
    ensures forall i :: 0 <= i < |group| ==> |group[i]| < FIXED_HDR + 0x1_0000
    ensures forall n :: n in Nums(group) ==> n in sent && |sent[n]| - FIXED_HDR <= LongestBody(group)
  {
    forall i | 0 <= i < |group| ensures |group[i]| < FIXED_HDR + 0x1_0000 {
      assert MediaPacket(ssrc, NumOf(group[i]), sent[NumOf(group[i])]);
    }
    hide NumOf, LongestBody;
    forall n | n in Nums(group) ensures n in sent && |sent[n]| - FIXED_HDR <= LongestBody(group) {
      var i :| 0 <= i < |group| && Nums(group)[i] == n;
      assert sent[n] == group[i];
    }
  }

  // ------------------------------------------------------------------
  // The encoder object
  // ------------------------------------------------------------------

  class FlexFecEncoder {
    const cfg: Config
    var groupSize: nat
    var num: u16
    var group: seq<Bytes>

    ghost predicate Valid()
      reads this
    {
      1 <= groupSize <= MASK_BITS && Longs(group)
    }

    constructor (cfg: Config, groupSize: nat, initialSequenceNumber: u16)
      ensures Valid() && group == [] && num == initialSequenceNumber && this.cfg == cfg
    {
      this.cfg := cfg;
      var size := if groupSize == 0 then 4 else groupSize;
      this.groupSize := if size < MASK_BITS then size else MASK_BITS;
      num := initialSequenceNumber;
      group := [];
    }

    method SetGroupSize(n: int)
      requires Valid()
      modifies this`groupSize
      ensures Valid() && groupSize == if n < 1 then 1 else if n > MASK_BITS then MASK_BITS else n
    {
      var atLeast := if n > 1 then n else 1;
      groupSize := if atLeast < MASK_BITS then atLeast else MASK_BITS;
    }

    /** Collects a packet of the protected stream; a full group leaves as one FEC packet. */
    method Protect(buf: Bytes) returns (out: seq<Bytes>)
      requires Valid()
      modifies this
      ensures Valid() && groupSize == old(groupSize)
      ensures var taken := |buf| >= FIXED_HDR && GetU32(buf, 8) == cfg.protectedSsrc;
              var collected := old(group) + [buf];
              if !taken then out == [] && group == old(group) && num == old(num)
              else if |collected| < groupSize then out == [] && group == collected && num == old(num)
              else Longs(collected) && out == [BuildFec(cfg, old(num), collected)]
                    && group == [] && num == Next(old(num))
    {
      if |buf| < FIXED_HDR {
        return [];
      }
      if GetU32(buf, 8) != cfg.protectedSsrc {
        return [];
      }
      group := group + [buf];
      if |group| >= groupSize {
        var pkt := Emit();
        return [pkt];
      }
      return [];
    }

    /** A partial group leaves as a FEC packet of its own. */
    method Flush() returns (out: seq<Bytes>)
      requires Valid()
      modifies this
      ensures Valid() && group == [] && groupSize == old(groupSize)
      ensures if old(group) == [] then out == [] && num == old(num)
              else out == [BuildFec(cfg, old(num), old(group))] && num == Next(old(num))
    {
      if |group| == 0 {
        return [];
      }
      var pkt := Emit();
      return [pkt];
    }

    method Emit() returns (pkt: Bytes)
      requires Valid() && group != []
      modifies this
      ensures Valid() && group == [] && num == Next(old(num)) && groupSize == old(groupSize)
      ensures pkt == BuildFec(cfg, old(num), old(group))
    {
      hide MaskBytes, Select, Pack16, Pack32;
      var all := group;
      group := [];
      var nums := Nums(all);
      var snBase := NumOf(all[0]);
      var maskBits := MaskSpan(all);
      var sum := XorAll(all);
      var bits := SetBits(all, snBase);
      var mask := WriteMask(bits, FormSize(maskBits));
      var header := [0x80, cfg.payloadType % 0x80] + PutU16(num) + PutU32(GetU32(all[|all| - 1], 4)) + PutU32(cfg.ssrc);
      pkt := header + (Recovery(sum, cfg.protectedSsrc, snBase) + mask + LowBytes(sum.body));
      num := Next(num);
    }

    /** The mask words, each bit or-ed in by itself. */
    static method WriteMask(bits: seq<bool>, size: nat) returns (m: Bytes)
      requires |bits| == MASK_BITS && size in {15, 46, MASK_BITS}
      ensures m == MaskBytes(bits, size)
    {
      hide PutU16, PutU32, Pack;
      if size == 15 {
        var v := OrBits([false], bits[..15]);
        assert v == Pack16([false] + bits[..15]);
        m := PutU16(v);
        return;
      }
      var v1 := OrBits([true], bits[..15]);
      assert v1 == Pack16([true] + bits[..15]);
      if size == 46 {
        var v2 := OrBits([false], bits[15..46]);
        assert v2 == Pack32([false] + bits[15..46]);
        m := PutU16(v1) + PutU32(v2);
        return;
      }
      var v3 := OrBits([true], bits[15..46]);
      assert v3 == Pack32([true] + bits[15..46]);
      var hi := OrBits([], bits[46..78]);
      assert [] + bits[46..78] == bits[46..78];
      assert hi == Pack32(bits[46..78]);
      var lo := OrBits([], bits[78..109]);
      assert [] + bits[78..109] == bits[78..109];
      PackDouble(bits[78..109]);
      assert 2 * lo == Pack32(bits[78..109] + [false]);
      m := PutU16(v1) + PutU32(v3) + PutU32(hi) + PutU32(2 * lo);
    }

    static method MaskSpan(group: seq<Bytes>) returns (maskBits: nat)
      requires Longs(group) && group != []
      ensures maskBits == Needed(Nums(group), NumOf(group[0]))
    {
      maskBits := 0;
      var nums := Nums(group);
      for i := 0 to |group|
        invariant maskBits == Needed(nums[..i], nums[0])
      {
        var d := Forward(nums[0], nums[i]);
        assert nums[..i + 1][..i] == nums[..i];
        if d + 1 > maskBits {
          maskBits := d + 1;
        }
      }
      assert nums[..|group|] == nums;
    }

    static method SetBits(group: seq<Bytes>, base: u16) returns (bits: seq<bool>)
      requires Longs(group)
      ensures bits == MaskOf(Nums(group), base)
    {
      bits := seq(MASK_BITS, _ => false);
      for m := 0 to |group|
        invariant |bits| == MASK_BITS
        invariant forall j :: 0 <= j < MASK_BITS ==> bits[j] == (Wrap(base + j) in Nums(group)[..m])
      {
        var d := Forward(base, NumOf(group[m]));
        assert Nums(group)[..m + 1] == Nums(group)[..m] + [NumOf(group[m])];
        ghost var before := bits;
        if d < MASK_BITS {
          bits := bits[d := true];
        }
        forall j | 0 <= j < MASK_BITS ensures bits[j] == (Wrap(base + j) in Nums(group)[..m + 1]) {
          ForwardWrap(base, j);
        }
      }
      assert Nums(group)[..|group|] == Nums(group);
    }

    static method XorAll(group: seq<Bytes>) returns (s: Sum)
      requires Longs(group)
      ensures s == SumOf(Zero(LongestBody(group)), group)
    {
      hide Add;
      var maxLen := 0;
      for j := 0 to |group|
        invariant maxLen == LongestBody(group[..j])
      {
        assert group[..j + 1][..j] == group[..j];
        if |group[j]| - FIXED_HDR > maxLen {
          maxLen := |group[j]| - FIXED_HDR;
        }
      }
      assert group[..|group|] == group;
      s := Zero(maxLen);
      for k := 0 to |group|
        invariant SumOf(s, group[k..]) == SumOf(Zero(maxLen), group)
      {
        assert group[k..][1..] == group[k + 1..];
        s := Add(s, group[k]);
      }
    }
  }
}
