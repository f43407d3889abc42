/**
 XOR forward error correction of src/flexfec.js.

 A FEC packet carries the exclusive or of a group of media packets and a mask that names the group.
 This is the algebra of such sums.
 */
module FlexFecModel {
  import opened Bits
  import opened SeqNum
  import opened Wire

  const FIXED_HDR := 12
  const MASK_BITS := 109

  // ------------------------------------------------------------------
  // Sums of packets
  // ------------------------------------------------------------------

  /** The recovery fields: the exclusive or of the first byte without its version, the second byte, the
      payload lengths, the timestamps, and the payloads padded to a common length. */
  datatype Sum = Sum(b0: nat, b1: nat, len: nat, ts: nat, body: seq<nat>)

  function Zero(bodyLen: nat): Sum {
    Sum(0, 0, 0, 0, seq(bodyLen, _ => 0))
  }

  /** Payload byte `i`, zero past the end. */
  function Padded(p: Bytes, i: nat): nat {
    if FIXED_HDR + i < |p| then p[FIXED_HDR + i] else 0
  }

  function XorBody(body: seq<nat>, p: Bytes): seq<nat> {
    seq(|body|, i requires 0 <= i < |body| => Xor(body[i], Padded(p, i)))
  }

  function Add(s: Sum, p: Bytes): Sum
    requires |p| >= FIXED_HDR
  {
    Sum(Xor(s.b0, p[0] % 0x40), Xor(s.b1, p[1]), Xor(s.len, |p| - FIXED_HDR), Xor(s.ts, GetU32(p, 4)),
        XorBody(s.body, p))
  }

  lemma AddSwap(s: Sum, p: Bytes, q: Bytes)
    requires |p| >= FIXED_HDR && |q| >= FIXED_HDR
    ensures Add(Add(s, p), q) == Add(Add(s, q), p)
  {
    XorSwap(s.b0, p[0] % 0x40, q[0] % 0x40);
    XorSwap(s.b1, p[1], q[1]);
    XorSwap(s.len, |p| - FIXED_HDR, |q| - FIXED_HDR);
    XorSwap(s.ts, GetU32(p, 4), GetU32(q, 4));
    var a, b := Add(Add(s, p), q).body, Add(Add(s, q), p).body;
    forall i | 0 <= i < |s.body| ensures a[i] == b[i] {
      XorSwap(s.body[i], Padded(p, i), Padded(q, i));
    }
  }

  lemma XorSwap(s: nat, a: nat, b: nat)
    ensures Xor(Xor(s, a), b) == Xor(Xor(s, b), a)
  {
    XorAssoc(s, a, b);
    XorAssoc(s, b, a);
    XorComm(a, b);
  }

  lemma AddTwice(s: Sum, p: Bytes)
    requires |p| >= FIXED_HDR
    ensures Add(Add(s, p), p) == s
  {
    XorTwice(s.b0, p[0] % 0x40);
    XorTwice(s.b1, p[1]);
    XorTwice(s.len, |p| - FIXED_HDR);
    XorTwice(s.ts, GetU32(p, 4));
    var a := Add(Add(s, p), p).body;
    forall i | 0 <= i < |s.body| ensures a[i] == s.body[i] {
      XorTwice(s.body[i], Padded(p, i));
    }
  }

  lemma XorTwice(s: nat, a: nat)
    ensures Xor(Xor(s, a), a) == s
  {
    XorAssoc(s, a, a);
    XorSelf(a);
    XorZero(s);
  }

  /** Media packets by their sequence number. */
  type Media = map<u16, Bytes>

  ghost predicate Long(media: Media) {
    forall n :: n in media ==> |media[n]| >= FIXED_HDR
  }

  /** The sum of the packets with these numbers, added to `s` in this order. */
  function Total(s: Sum, media: Media, nums: seq<u16>): Sum
    requires Long(media) && forall n :: n in nums ==> n in media
    decreases |nums|
  {
    if nums == [] then s else Total(Add(s, media[nums[0]]), media, nums[1..])
  }

  /** Adding a packet first or last makes no difference. */
  lemma {:induction false} TotalAdd(s: Sum, media: Media, nums: seq<u16>, p: Bytes)
    requires Long(media) && |p| >= FIXED_HDR && forall n :: n in nums ==> n in media
    ensures Total(Add(s, p), media, nums) == Add(Total(s, media, nums), p)
    decreases |nums|
  {
    if nums != [] {
      AddSwap(s, p, media[nums[0]]);
      TotalAdd(Add(s, media[nums[0]]), media, nums[1..], p);
    }
  }

  /** Any one member can be taken out and added at the end. */
  lemma {:induction false} TotalTakeOut(s: Sum, media: Media, nums: seq<u16>, i: nat)
    requires Long(media) && i < |nums| && forall n :: n in nums ==> n in media
    ensures Total(s, media, nums) == Add(Total(s, media, nums[..i] + nums[i + 1..]), media[nums[i]])
    decreases |nums|
  {
    var rest := nums[..i] + nums[i + 1..];
    if i == 0 {
      assert rest == nums[1..];
      TotalAdd(s, media, nums[1..], media[nums[0]]);
    } else {
      var tail := nums[1..];
      TotalTakeOut(Add(s, media[nums[0]]), media, tail, i - 1);
      assert rest[1..] == tail[..i - 1] + tail[i..];
    }
  }

  lemma RemoveOne<T>(a: seq<T>, b: seq<T>) returns (i: nat)
    requires multiset(a) == multiset(b) && b != []
    ensures i < |a| && a[i] == b[0] && multiset(a[..i] + a[i + 1..]) == multiset(b[1..])
  {
    assert b[0] in multiset(a);
    i :| 0 <= i < |a| && a[i] == b[0];
    var rest := a[..i] + a[i + 1..];
    assert multiset(a) == multiset(rest) + multiset{b[0]} by {
      assert a == a[..i] + [b[0]] + a[i + 1..];
    }
    assert multiset(b) == multiset(b[1..]) + multiset{b[0]} by {
      assert b == [b[0]] + b[1..];
    }
    assert multiset(rest) == multiset(a) - multiset{b[0]};
    assert multiset(b[1..]) == multiset(b) - multiset{b[0]};
  }

  lemma SameElements<T>(a: seq<T>, b: seq<T>)
    requires multiset(a) == multiset(b)
    ensures |a| == |b| && forall i :: 0 <= i < |b| ==> b[i] in a
  {
    assert |a| == |multiset(a)| && |b| == |multiset(b)|;
    forall i | 0 <= i < |b| ensures b[i] in a {
      assert b[i] in multiset(a);
    }
  }

  /** The order of the members makes no difference. */
  lemma {:induction false} TotalAnyOrder(s: Sum, media: Media, a: seq<u16>, b: seq<u16>)
    requires Long(media) && (forall n :: n in a ==> n in media) && multiset(a) == multiset(b)
    ensures (forall n :: n in b ==> n in media) && Total(s, media, a) == Total(s, media, b)
    decreases |b|
  {
    SameElements(a, b);
    if b != [] {
      hide Add;
      var i := RemoveOne(a, b);
      TotalTakeOut(s, media, a, i);
      TotalAnyOrder(s, media, a[..i] + a[i + 1..], b[1..]);
      TotalAdd(s, media, b[1..], media[b[0]]);
    }
  }

  lemma {:induction false} TotalTwice(s: Sum, media: Media, nums: seq<u16>)
    requires Long(media) && forall n :: n in nums ==> n in media
    ensures Total(Total(s, media, nums), media, nums) == s
    decreases |nums|
  {
    if nums != [] {
      hide Add;
      var p, rest := media[nums[0]], nums[1..];
      TotalAdd(s, media, rest, p);
      AddTwice(Total(s, media, rest), p);
      TotalTwice(s, media, rest);
    }
  }

  /** Adding all members of a group but one to the group's sum leaves that one. */
  lemma Cancel(s: Sum, media: Media, group: seq<u16>, have: seq<u16>, missing: u16)
    requires Long(media) && forall n :: n in group ==> n in media
    requires multiset(group) == multiset([missing] + have)
    ensures (forall n :: n in have ==> n in media) && missing in media
    ensures Total(Total(s, media, group), media, have) == Add(s, media[missing])
  {
    hide Add;
    TotalAnyOrder(s, media, group, [missing] + have);
    assert missing in [missing] + have;
    assert forall n :: n in have ==> n in [missing] + have;
    assert ([missing] + have)[1..] == have;
    TotalTwice(Add(s, media[missing]), media, have);
  }

  // ------------------------------------------------------------------
  // One FEC packet at the decoder
  // ------------------------------------------------------------------

  /** A parsed FEC packet: the numbers it covers and their sum; the body is the repair payload. */
  datatype Fec = Fec(ssrc: u32, snBase: u16, seqs: seq<u16>, sum: Sum)

  datatype Attempt = Satisfied | Waiting | Recovered(pkt: Bytes)

  function Absent(nums: seq<u16>, known: set<u16>): seq<u16> {
    if nums == [] then []
    else if nums[0] in known then Absent(nums[1..], known)
    else [nums[0]] + Absent(nums[1..], known)
  }

  function Present(nums: seq<u16>, known: set<u16>): seq<u16> {
    if nums == [] then []
    else if nums[0] in known then [nums[0]] + Present(nums[1..], known)
    else Present(nums[1..], known)
  }

  lemma {:induction false} PresentKnown(nums: seq<u16>, known: set<u16>)
    ensures forall n :: n in Present(nums, known) ==> n in known && n in nums
    decreases |nums|
  {
    if nums != [] {
      PresentKnown(nums[1..], known);
    }
  }

  lemma {:induction false} AbsentExact(nums: seq<u16>, known: set<u16>)
    ensures forall n :: n in Absent(nums, known) <==> n in nums && n !in known
    decreases |nums|
  {
    if nums != [] {
      AbsentExact(nums[1..], known);
      assert forall n :: n in nums <==> n == nums[0] || n in nums[1..];
    }
  }

  lemma {:induction false} PresentAbsent(nums: seq<u16>, known: set<u16>)
    ensures multiset(nums) == multiset(Absent(nums, known) + Present(nums, known))
    decreases |nums|
  {
    if nums != [] {
      PresentAbsent(nums[1..], known);
      assert nums == [nums[0]] + nums[1..];
    }
  }

  /** The recovered packet's bytes; buffer writes keep the low bits of each field. */
  function Rebuild(ssrc: u32, num: u16, s: Sum, recLen: nat): Bytes
    requires recLen <= |s.body|
  {
    [0x80 + s.b0 % 0x40, s.b1 % 0x100] + PutU16(num) + PutU32(s.ts % 0x1_0000_0000) + PutU32(ssrc)
    + seq(recLen, i requires 0 <= i < recLen => s.body[i] % 0x100)
  }

  function TryRecover(f: Fec, media: Media): Attempt
    requires Long(media)
  {
    var missing := Absent(f.seqs, media.Keys);
    if |missing| == 0 then Satisfied
    else if |missing| > 1 then Waiting
    else
      PresentKnown(f.seqs, media.Keys);
      var s := Total(f.sum, media, Present(f.seqs, media.Keys));
      var recLen := s.len % 0x1_0000;
      if recLen > |s.body| then Waiting  // corrupt
      else Recovered(Rebuild(f.ssrc, missing[0], s, recLen))
  }

  /** A media packet of the protected stream, as the encoder is fed them. */
  ghost predicate MediaPacket(ssrc: u32, num: u16, p: Bytes) {
    && FIXED_HDR <= |p| < FIXED_HDR + 0x1_0000
    && p[0] / 0x40 == 2
    && GetU16(p, 2) == num && GetU32(p, 8) == ssrc
  }

  /** All media packets sent, no two under one number. */
  ghost predicate Stream(ssrc: u32, sent: Media) {
    forall n :: n in sent ==> MediaPacket(ssrc, n, sent[n])
  }

  ghost predicate Genuine(media: Media, sent: Media) {
    forall n :: n in media ==> n in sent && media[n] == sent[n]
  }

  /** The FEC packet of some group of the stream. */
  ghost predicate Honest(f: Fec, ssrc: u32, sent: Media)
    requires Long(sent)
  {
    && f.ssrc == ssrc
    && (forall n :: n in f.seqs ==> n in sent && |sent[n]| - FIXED_HDR <= |f.sum.body|)
    && f.sum == Total(Zero(|f.sum.body|), sent, f.seqs)
  }

  lemma {:induction false} TotalGenuine(s: Sum, media: Media, sent: Media, nums: seq<u16>)
    requires Long(media) && Long(sent) && Genuine(media, sent) && forall n :: n in nums ==> n in media
    ensures Total(s, media, nums) == Total(s, sent, nums)
    decreases |nums|
  {
    if nums != [] {
      TotalGenuine(Add(s, media[nums[0]]), media, sent, nums[1..]);
    }
  }

  lemma {:induction false} TotalBody(s: Sum, media: Media, nums: seq<u16>)
    requires Long(media) && forall n :: n in nums ==> n in media
    ensures |Total(s, media, nums).body| == |s.body|
    decreases |nums|
  {
    if nums != [] {
      TotalBody(Add(s, media[nums[0]]), media, nums[1..]);
    }
  }

  lemma HeaderRebuilt(p: Bytes)
    requires |p| >= FIXED_HDR
    ensures [p[0], p[1]] + PutU16(GetU16(p, 2)) + PutU32(GetU32(p, 4)) + PutU32(GetU32(p, 8)) == p[..FIXED_HDR]
  {
    hide PutU16, PutU32, GetU16, GetU32;
    PutGet16(p, 2);
    PutGet32(p, 4);
    PutGet32(p, 8);
    assert p[..FIXED_HDR] == [p[0], p[1]] + p[2..4] + p[4..8] + p[8..12];
  }

  lemma BodyRebuilt(p: Bytes, bodyLen: nat)
    requires FIXED_HDR <= |p| <= FIXED_HDR + bodyLen
    ensures var body := XorBody(Zero(bodyLen).body, p);
            seq(|p| - FIXED_HDR, i requires 0 <= i < |p| - FIXED_HDR => body[i] % 0x100) == p[FIXED_HDR..]
  {
    var body := XorBody(Zero(bodyLen).body, p);
    var r := seq(|p| - FIXED_HDR, i requires 0 <= i < |p| - FIXED_HDR => body[i] % 0x100);
    forall i | 0 <= i < |r| ensures r[i] == p[FIXED_HDR..][i] {
      XorZero(p[FIXED_HDR + i]);
    }
  }

  /** A single packet comes back out of its own sum, byte for byte. */
  lemma RebuildExact(ssrc: u32, num: u16, p: Bytes, bodyLen: nat)
    requires MediaPacket(ssrc, num, p) && |p| - FIXED_HDR <= bodyLen
    ensures var s := Add(Zero(bodyLen), p);
            && s.len % 0x1_0000 == |p| - FIXED_HDR <= |s.body|
            && Rebuild(ssrc, num, s, |p| - FIXED_HDR) == p
  {
    hide Add, Zero, XorBody, PutU16, PutU32, GetU16, GetU32;
    AddToZero(p, bodyLen);
    HeaderRebuilt(p);
    BodyRebuilt(p, bodyLen);
    assert p == p[..FIXED_HDR] + p[FIXED_HDR..];
    assert [0x80 + p[0] % 0x40, p[1] % 0x100] == [p[0], p[1]];
  }

  lemma AddToZero(p: Bytes, bodyLen: nat)
    requires |p| >= FIXED_HDR
    ensures var body := XorBody(Zero(bodyLen).body, p);
            |body| == bodyLen && Add(Zero(bodyLen), p) == Sum(p[0] % 0x40, p[1], |p| - FIXED_HDR, GetU32(p, 4), body)
  {
    XorZero(p[0] % 0x40);
    XorZero(p[1]);
    XorZero(|p| - FIXED_HDR);
    XorZero(GetU32(p, 4));
  }

  /** With an honest FEC packet and genuine media, recovery is exact and never fails. */
  lemma RecoverExact(f: Fec, ssrc: u32, sent: Media, media: Media)
    requires Stream(ssrc, sent) && Long(sent) && Honest(f, ssrc, sent) && Genuine(media, sent) && Long(media)
    ensures forall n :: n in Absent(f.seqs, media.Keys) ==> n in sent
    ensures var missing := Absent(f.seqs, media.Keys);
            TryRecover(f, media) ==
              if |missing| == 0 then Satisfied else if |missing| > 1 then Waiting else Recovered(sent[missing[0]])
  {
    hide Absent, Present, Total;
    var missing, have := Absent(f.seqs, media.Keys), Present(f.seqs, media.Keys);
    AbsentExact(f.seqs, media.Keys);
    PresentKnown(f.seqs, media.Keys);
    if |missing| == 1 {
      hide Add, Rebuild, MediaPacket, Zero;
      var m, bodyLen := missing[0], |f.sum.body|;
      PresentAbsent(f.seqs, media.Keys);
      assert missing == [m];
      TotalGenuine(f.sum, media, sent, have);
      Cancel(Zero(bodyLen), sent, f.seqs, have, m);
      RebuildExact(ssrc, m, sent[m], bodyLen);
    }
  }
}
