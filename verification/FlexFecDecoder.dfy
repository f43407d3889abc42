/**
 The decoder of src/flexfec.js: the loop that retires satisfied FEC packets and recovers missing media
 until nothing more can be recovered, the windows around it, and whole runs.
 */
module FlexFecDecoding {
  import opened FlexFecCodec
  import opened FlexFecModel
  import opened JsMap
  import opened Options
  import opened SeqNum
  import opened Wire

  type Window = m: Map<u16, Bytes> | m.Valid() && Long(m.vals) witness Map([], map[])

  datatype Outcome = Outcome(media: Window, fec: seq<Fec>, out: seq<Bytes>)

  function RemoveAt<T>(s: seq<T>, i: nat): seq<T>
    requires i < |s|
  {
    s[..i] + s[i + 1..]
  }

  function Keep(media: Window, p: Bytes): Window
    requires |p| >= FIXED_HDR
  {
    media.SetValid(GetU16(p, 2), p);
    media.Set(GetU16(p, 2), p)
  }

  lemma RecoveredLong(f: Fec, media: Media)
    requires Long(media) && TryRecover(f, media).Recovered?
    ensures |TryRecover(f, media).pkt| >= FIXED_HDR
  {
  }

  /** `_tryRecoverAll` with the pending packets from `i` on already tried. A recovered packet restarts
      the scan at the end, for it may unlock others. */
  function RecoverAll(media: Window, fec: seq<Fec>, i: nat): Outcome
    requires i <= |fec|
    decreases |fec|, i
  {
    if i == 0 then Outcome(media, fec, [])
    else
      match TryRecover(fec[i - 1], media.vals)
      case Satisfied => RecoverAll(media, RemoveAt(fec, i - 1), i - 1)
      case Waiting => RecoverAll(media, fec, i - 1)
      case Recovered(p) =>
        RecoveredLong(fec[i - 1], media.vals);
        var rest := RecoverAll(Keep(media, p), RemoveAt(fec, i - 1), |fec| - 1);
        rest.(out := [p] + rest.out)
  }

  // ------------------------------------------------------------------
  // The peeling closure
  // ------------------------------------------------------------------

  /** Nothing is one packet short: no FEC packet could recover anything from `known`. */
  ghost predicate Stable(known: set<u16>, fec: seq<Fec>) {
    forall f :: f in fec ==> |Absent(f.seqs, known)| != 1
  }

  ghost predicate AllHonest(fec: seq<Fec>, ssrc: u32, sent: Media)
    requires Long(sent)
  {
    forall f :: f in fec ==> Honest(f, ssrc, sent)
  }

  /** Knowing more leaves no more missing. */
  lemma {:induction false} AbsentShrinks(nums: seq<u16>, a: set<u16>, b: set<u16>)
    requires a <= b
    ensures |Absent(nums, b)| <= |Absent(nums, a)|
    decreases |nums|
  {
    if nums != [] {
      AbsentShrinks(nums[1..], a, b);
    }
  }

  /** One more known packet that is the only one missing completes the group. */
  lemma OnlyMissing(nums: seq<u16>, a: set<u16>, b: set<u16>, n: u16)
    requires a <= b && Absent(nums, a) == [n] && n in b
    ensures Absent(nums, b) == []
  {
    AbsentExact(nums, a);
    AbsentExact(nums, b);
    forall x | x in nums ensures x in b {
      if x !in a {
        assert x in Absent(nums, a);
      }
    }
    assert Absent(nums, b) != [] ==> Absent(nums, b)[0] in Absent(nums, b);
  }

  lemma Removed<T>(s: seq<T>, i: nat)
    requires i < |s|
    ensures |RemoveAt(s, i)| == |s| - 1
    ensures forall x :: x in RemoveAt(s, i) ==> x in s
    ensures forall x :: x in s ==> x == s[i] || x in RemoveAt(s, i)
    ensures forall j :: i <= j < |s| - 1 ==> RemoveAt(s, i)[j] == s[j + 1]
  {
    forall x | x in s ensures x == s[i] || x in RemoveAt(s, i) {
      var j :| 0 <= j < |s| && s[j] == x;
      if j < i {
        assert RemoveAt(s, i)[j] == x;
      } else if j > i {
        assert RemoveAt(s, i)[j - 1] == x;
      }
    }
  }

  /** Everything `RecoverAll` reports is genuine; nothing known is forgotten; each FEC packet it keeps
      misses at least two members, and each one it drops misses none. */
  ghost predicate Peeled(media: Window, fec: seq<Fec>, r: Outcome, sent: Media) {
    && Genuine(r.media.vals, sent)
    && media.vals.Keys <= r.media.vals.Keys
    && (forall k :: 0 <= k < |r.out| ==> r.out[k] in sent.Values)
    && (forall f :: f in r.fec ==> f in fec && |Absent(f.seqs, r.media.vals.Keys)| >= 2)
    && (forall f :: f in fec ==> f in r.fec || Absent(f.seqs, r.media.vals.Keys) == [])
  }

  lemma PeeledExtend(media: Window, media': Window, fec: seq<Fec>, i: nat, rest: Outcome, sent: Media,
                      extra: seq<Bytes>)
    requires i < |fec| && Peeled(media', RemoveAt(fec, i), rest, sent)
    requires media.vals.Keys <= media'.vals.Keys && Absent(fec[i].seqs, rest.media.vals.Keys) == []
    requires forall k :: 0 <= k < |extra| ==> extra[k] in sent.Values
    ensures Peeled(media, fec, rest.(out := extra + rest.out), sent)
  {
    hide Absent, RemoveAt;
    Removed(fec, i);
  }

  lemma PeeledRecovered(media: Window, fec: seq<Fec>, i: nat, rest: Outcome, sent: Media, n: u16)
    requires i < |fec| && n in sent && |sent[n]| >= FIXED_HDR
    requires Absent(fec[i].seqs, media.vals.Keys) == [n]
    requires Keep(media, sent[n]).vals.Keys == media.vals.Keys + {n}
    requires Peeled(Keep(media, sent[n]), RemoveAt(fec, i), rest, sent)
    ensures Peeled(media, fec, rest.(out := [sent[n]] + rest.out), sent)
  {
    hide Absent, RemoveAt, Keep;
    OnlyMissing(fec[i].seqs, media.vals.Keys, rest.media.vals.Keys, n);
    PeeledExtend(media, Keep(media, sent[n]), fec, i, rest, sent, [sent[n]]);
  }

  lemma KeepGenuine(media: Window, sent: Media, ssrc: u32, n: u16)
    requires Stream(ssrc, sent) && n in sent && Genuine(media.vals, sent)
    ensures |sent[n]| >= FIXED_HDR
    ensures var media' := Keep(media, sent[n]);
            Genuine(media'.vals, sent) && media'.vals.Keys == media.vals.Keys + {n}
  {
    SentNumber(ssrc, sent, n);
  }

  lemma {:induction false} RecoverAllPeels(media: Window, fec: seq<Fec>, i: nat, ssrc: u32, sent: Media)
    requires i <= |fec| && Stream(ssrc, sent) && Long(sent)
    requires AllHonest(fec, ssrc, sent) && Genuine(media.vals, sent)
    requires forall j :: i <= j < |fec| ==> |Absent(fec[j].seqs, media.vals.Keys)| >= 2
    ensures Peeled(media, fec, RecoverAll(media, fec, i), sent)
    decreases |fec|, i
  {
    hide TryRecover, Absent, Honest, Stream, Long, RemoveAt, Keep;
    if i > 0 {
      var f, shorter := fec[i - 1], RemoveAt(fec, i - 1);
      var known := media.vals.Keys;
      RecoverExact(f, ssrc, sent, media.vals);
      Removed(fec, i - 1);
      assert AllHonest(shorter, ssrc, sent);
      match TryRecover(f, media.vals)
      case Satisfied =>
        hide Genuine, AllHonest;
        var rest := RecoverAll(media, shorter, i - 1);
        RecoverAllPeels(media, shorter, i - 1, ssrc, sent);
        AbsentShrinks(f.seqs, known, rest.media.vals.Keys);
        hide Peeled;
        PeeledExtend(media, media, fec, i - 1, rest, sent, []);
        assert [] + rest.out == rest.out;
      case Waiting =>
        RecoverAllPeels(media, fec, i - 1, ssrc, sent);
      case Recovered(p) =>
        hide Genuine, AllHonest, Peeled;
        var n := Absent(f.seqs, known)[0];
        KeepGenuine(media, sent, ssrc, n);
        var rest := RecoverAll(Keep(media, p), shorter, |fec| - 1);
        RecoverAllPeels(Keep(media, p), shorter, |fec| - 1, ssrc, sent);
        PeeledRecovered(media, fec, i - 1, rest, sent, n);
    }
  }

  lemma SentNumber(ssrc: u32, sent: Media, n: u16)
    requires Stream(ssrc, sent) && n in sent
    ensures |sent[n]| >= FIXED_HDR && GetU16(sent[n], 2) == n
  {
  }

  /** What is known at the end is inside every stable set that holds what was known before: no more is
      recovered than must be. */
  lemma {:induction false} RecoverAllLeast(media: Window, fec: seq<Fec>, i: nat, ssrc: u32, sent: Media,
                                           bound: set<u16>)
    requires i <= |fec| && Stream(ssrc, sent) && Long(sent)
    requires AllHonest(fec, ssrc, sent) && Genuine(media.vals, sent)
    requires media.vals.Keys <= bound && Stable(bound, fec)
    ensures RecoverAll(media, fec, i).media.vals.Keys <= bound
    decreases |fec|, i
  {
    hide TryRecover, Absent, Honest, Stream;
    if i > 0 {
      var f := fec[i - 1];
      RecoverExact(f, ssrc, sent, media.vals);
      Removed(fec, i - 1);
      var known := media.vals.Keys;
      match TryRecover(f, media.vals)
      case Satisfied =>
        RecoverAllLeast(media, RemoveAt(fec, i - 1), i - 1, ssrc, sent, bound);
      case Waiting =>
        RecoverAllLeast(media, fec, i - 1, ssrc, sent, bound);
      case Recovered(p) =>
        var n := Absent(f.seqs, known)[0];
        SentNumber(ssrc, sent, n);
        AbsentShrinks(f.seqs, known, bound);
        AbsentExact(f.seqs, bound);
        AbsentExact(f.seqs, known);
        assert n in Absent(f.seqs, known);
        assert |Absent(f.seqs, bound)| == 0;
        assert n !in Absent(f.seqs, bound);
        RecoverAllLeast(Keep(media, p), RemoveAt(fec, i - 1), |fec| - 1, ssrc, sent, bound);
    }
  }

  lemma EndsInside(media: Window, a: seq<Fec>, b: seq<Fec>, ssrc: u32, sent: Media)
    requires Stream(ssrc, sent) && Long(sent) && Genuine(media.vals, sent)
    requires AllHonest(a, ssrc, sent) && AllHonest(b, ssrc, sent) && forall f :: f in a ==> f in b
    ensures RecoverAll(media, a, |a|).media.vals.Keys <= RecoverAll(media, b, |b|).media.vals.Keys
    ensures Genuine(RecoverAll(media, b, |b|).media.vals, sent)
  {
    hide RecoverAll, Honest, Stream, Long, Absent;
    var rb := RecoverAll(media, b, |b|);
    RecoverAllPeels(media, b, |b|, ssrc, sent);
    RecoverAllLeast(media, a, |a|, ssrc, sent, rb.media.vals.Keys);
  }

  lemma GenuineEqual(a: Media, b: Media, sent: Media)
    requires Genuine(a, sent) && Genuine(b, sent) && a.Keys == b.Keys
    ensures a == b
  {
  }

  /** Confluence: the same media and the same FEC packets, in any order and any multiplicity, end with the
      same known packets. */
  lemma Confluence(media: Window, a: seq<Fec>, b: seq<Fec>, ssrc: u32, sent: Media)
    requires Stream(ssrc, sent) && Long(sent) && Genuine(media.vals, sent)
    requires AllHonest(a, ssrc, sent) && forall f :: f in a <==> f in b
    ensures RecoverAll(media, a, |a|).media.vals == RecoverAll(media, b, |b|).media.vals
  {
    hide RecoverAll, Stream, Long, Honest, Genuine;
    EndsInside(media, a, b, ssrc, sent);
    EndsInside(media, b, a, ssrc, sent);
    GenuineEqual(RecoverAll(media, a, |a|).media.vals, RecoverAll(media, b, |b|).media.vals, sent);
  }

  // ------------------------------------------------------------------
  // Whole runs
  // ------------------------------------------------------------------

  const MAX_FEC := 64

  datatype Decoder = Decoder(media: Window, fec: seq<Fec>)

  datatype Turn = Turn(st: Decoder, out: seq<Bytes>)

  /** The oldest packets leave while there are more than `win`. */
  function Trim(media: Window, win: nat): (r: Window)
    ensures r.vals.Keys <= media.vals.Keys && forall n :: n in r.vals ==> r.vals[n] == media.vals[n]
    decreases |media.keys|
  {
    if |media.keys| <= win then media
    else
      media.DeleteValid(media.keys[0]);
      WithoutShorter(media.keys, media.keys[0]);
      Trim(media.Delete(media.keys[0]), win)
  }

  function Newest(fec: seq<Fec>): seq<Fec> {
    if |fec| > MAX_FEC then fec[|fec| - MAX_FEC..] else fec
  }

  function Settle(media: Window, fec: seq<Fec>): Turn {
    var r := RecoverAll(media, fec, |fec|);
    Turn(Decoder(r.media, r.fec), r.out)
  }

  function AddMedia(st: Decoder, buf: Bytes, win: nat): Turn {
    if |buf| < FIXED_HDR then Turn(st, [])
    else Settle(Trim(Keep(st.media, buf), win), st.fec)
  }

  function AddFec(st: Decoder, buf: Bytes): Turn {
    match ParseFec(buf)
    case None => Turn(st, [])
    case Some(f) => Settle(st.media, Newest(st.fec + [f]))
  }

  datatype Arrival = MediaArrives(buf: Bytes) | FecArrives(buf: Bytes)

  function Receive(st: Decoder, a: Arrival, win: nat): Turn {
    match a
    case MediaArrives(buf) => AddMedia(st, buf, win)
    case FecArrives(buf) => AddFec(st, buf)
  }

  /** Something the sender sent: a media packet, or the FEC packet of some group of media packets. */
  ghost predicate FromSender(a: Arrival, cfg: Config, sent: Media) {
    match a
    case MediaArrives(buf) => |buf| >= FIXED_HDR && NumOf(buf) in sent && sent[NumOf(buf)] == buf
    case FecArrives(buf) =>
      exists num: u16, group: seq<Bytes> ::
        GoodGroup(group, cfg.protectedSsrc, sent) && buf == BuildFec(cfg, num, group)
  }

  ghost predicate Faithful(st: Decoder, ssrc: u32, sent: Media)
    requires Long(sent)
  {
    Genuine(st.media.vals, sent) && AllHonest(st.fec, ssrc, sent)
  }

  lemma SettleFaithful(media: Window, fec: seq<Fec>, ssrc: u32, sent: Media)
    requires Stream(ssrc, sent) && Long(sent) && Genuine(media.vals, sent) && AllHonest(fec, ssrc, sent)
    ensures var r := Settle(media, fec);
            && Faithful(r.st, ssrc, sent)
            && (forall k :: 0 <= k < |r.out| ==> r.out[k] in sent.Values)
            && (forall f :: f in r.st.fec ==> |Absent(f.seqs, r.st.media.vals.Keys)| >= 2)
  {
    hide RecoverAll, Honest, Stream, Long, Absent;
    RecoverAllPeels(media, fec, |fec|, ssrc, sent);
  }

  /** Whatever of the sender's packets arrives, the decoder stays faithful and outputs only original packets. */
  lemma ReceiveFaithful(st: Decoder, a: Arrival, win: nat, cfg: Config, sent: Media)
    requires Stream(cfg.protectedSsrc, sent) && Long(sent)
    requires Faithful(st, cfg.protectedSsrc, sent) && FromSender(a, cfg, sent)
    ensures var r := Receive(st, a, win);
            && Faithful(r.st, cfg.protectedSsrc, sent)
            && (forall k :: 0 <= k < |r.out| ==> r.out[k] in sent.Values)
            && (forall f :: f in r.st.fec ==> |Absent(f.seqs, r.st.media.vals.Keys)| >= 2)
  {
    hide Settle, Honest, Stream, Long, Absent, BuildFec, ParseFec, Trim, Forward;
    match a
    case MediaArrives(buf) =>
      var media := Trim(Keep(st.media, buf), win);
      SettleFaithful(media, st.fec, cfg.protectedSsrc, sent);
    case FecArrives(buf) =>
      var num: u16, group: seq<Bytes> :|
        GoodGroup(group, cfg.protectedSsrc, sent) && buf == BuildFec(cfg, num, group);
      hide GoodGroup;
      GroupHonest(cfg, num, group, sent);
      var f := ParseFec(buf).value;
      assert forall g :: g in Newest(st.fec + [f]) ==> g in st.fec || g == f;
      SettleFaithful(st.media, Newest(st.fec + [f]), cfg.protectedSsrc, sent);
  }

  function Run(arrivals: seq<Arrival>, win: nat): Turn {
    if arrivals == [] then Turn(Decoder(Map([], map[]), []), [])
    else
      var before := Run(arrivals[..|arrivals| - 1], win);
      var last := Receive(before.st, arrivals[|arrivals| - 1], win);
      Turn(last.st, before.out + last.out)
  }

  /** Under any loss, repetition and interleaving of media and FEC packets, every packet the decoder ever
      outputs is byte for byte a packet that was sent, rebuilt from rebuilt packets or not. */
  lemma {:induction false} RunExact(arrivals: seq<Arrival>, win: nat, cfg: Config, sent: Media)
    requires Stream(cfg.protectedSsrc, sent) && Long(sent)
    requires forall i :: 0 <= i < |arrivals| ==> FromSender(arrivals[i], cfg, sent)
    ensures Faithful(Run(arrivals, win).st, cfg.protectedSsrc, sent)
    ensures forall k :: 0 <= k < |Run(arrivals, win).out| ==> Run(arrivals, win).out[k] in sent.Values
    decreases |arrivals|
  {
    if arrivals != [] {
      hide Receive, FromSender, Faithful, Stream, Long;
      var init := arrivals[..|arrivals| - 1];
      RunExact(init, win, cfg, sent);
      ReceiveFaithful(Run(init, win).st, arrivals[|arrivals| - 1], win, cfg, sent);
    }
  }

  // ------------------------------------------------------------------
  // The decoder object
  // ------------------------------------------------------------------

  class FlexFecDecoder {
    var media: Window
    var fec: seq<Fec>
    const win: nat

    function Abs(): Decoder
      reads this
    {
      Decoder(media, fec)
    }

    constructor (windowSize: nat)
      ensures Abs() == Decoder(Map([], map[]), [])
      ensures win == if windowSize == 0 then 256 else windowSize
    {
      media, fec := Map([], map[]), [];
      win := if windowSize == 0 then 256 else windowSize;
    }

    method AddMediaPacket(buf: Bytes) returns (out: seq<Bytes>)
      modifies this
      ensures Turn(Abs(), out) == AddMedia(old(Abs()), buf, win)
    {
      if |buf| < FIXED_HDR {
        return [];
      }
      media := Keep(media, buf);
      ghost var kept := media;
      while media.Size() > win
        invariant fec == old(fec) && Trim(media, win) == Trim(kept, win)
        decreases |media.keys|
      {
        media.DeleteValid(media.keys[0]);
        WithoutShorter(media.keys, media.keys[0]);
        media := media.Delete(media.keys[0]);
      }
      out := TryRecoverAll();
    }

    method AddFecPacket(buf: Bytes) returns (out: seq<Bytes>)
      modifies this
      ensures Turn(Abs(), out) == AddFec(old(Abs()), buf)
    {
      var f := ParseFec(buf);
      if f.None? {
        return [];
      }
      fec := fec + [f.value];
      ghost var pushed := fec;
      while |fec| > MAX_FEC
        invariant media == old(media) && Newest(fec) == Newest(pushed)
        decreases |fec|
      {
        fec := fec[1..];
      }
      out := TryRecoverAll();
    }

    method TryRecoverAll() returns (out: seq<Bytes>)
      modifies this
      ensures Turn(Abs(), out) == Settle(old(media), old(fec))
    {
      hide TryRecover, Keep;
      out := [];
      var i: nat := |fec|;
      ghost var goal := RecoverAll(media, fec, i);
      while i > 0
        invariant i <= |fec|
        invariant var r := RecoverAll(media, fec, i); r.(out := out + r.out) == goal
        decreases |fec|, i
      {
        i := i - 1;
        ghost var rest := RecoverAll(media, fec, i + 1);
        var attempt := Attempt(fec[i]);
        match attempt
        case Satisfied =>
          fec := RemoveAt(fec, i);
        case Waiting =>
        case Recovered(rec) =>
          RecoveredLong(fec[i], media.vals);
          assert out + rest.out == (out + [rec]) + rest.out[1..];
          out := out + [rec];
          media := Keep(media, rec);
          fec := RemoveAt(fec, i);
          i := |fec|;
      }
      assert out + [] == out;
    }

    /** `_tryRecover`. */
    method Attempt(f: Fec) returns (r: Attempt)
      ensures r == TryRecover(f, media.vals)
    {
      hide Add, Rebuild, Present, Absent;
      var several, missing, have := Scan(f.seqs);
      if several {
        return Waiting;
      }
      if missing.None? {
        return Satisfied;
      }
      ghost var held := Present(f.seqs, media.vals.Keys);
      PresentKnown(f.seqs, media.vals.Keys);
      var s := f.sum;
      assert held[0..] == held;
      for j := 0 to |have|
        invariant Total(s, media.vals, held[j..]) == Total(f.sum, media.vals, held)
      {
        assert held[j..][1..] == held[j + 1..];
        s := Add(s, have[j]);
      }
      assert held[|held|..] == [];
      var recLen := s.len % 0x1_0000;
      if recLen > |s.body| {
        return Waiting;
      }
      r := Recovered(Rebuild(f.ssrc, missing.value, s, recLen));
    }

    /** The members are looked up one by one and the scan stops at the second missing one. */
    method Scan(seqs: seq<u16>) returns (several: bool, missing: Option<u16>, have: seq<Bytes>)
      ensures several <==> |Absent(seqs, media.vals.Keys)| > 1
      ensures !several ==> Absent(seqs, media.vals.Keys) == if missing.None? then [] else [missing.value]
      ensures !several ==> Packets(Present(seqs, media.vals.Keys), have)
    {
      several, missing, have := false, None, [];
      ghost var known := media.vals.Keys;
      ghost var held: seq<u16> := [];
      assert seqs[0..] == seqs;
      for i := 0 to |seqs|
        invariant Present(seqs, known) == held + Present(seqs[i..], known)
        invariant Absent(seqs, known) == (if missing.None? then [] else [missing.value]) + Absent(seqs[i..], known)
        invariant Packets(held, have)
      {
        var n := seqs[i];
        assert seqs[i..][1..] == seqs[i + 1..];
        var m := media.Get(n);
        if m.Some? {
          ghost var more := Present(seqs[i + 1..], known);
          assert held + ([n] + more) == (held + [n]) + more;
          have := have + [m.value];
          held := held + [n];
        } else if missing.Some? {
          several := true;
          return;
        } else {
          missing := Some(n);
        }
      }
      assert seqs[|seqs|..] == [];
      assert held + [] == held;
    }

    /** The packets held under these numbers. */
    ghost predicate Packets(nums: seq<u16>, have: seq<Bytes>)
      reads this
    {
      |have| == |nums| && forall j :: 0 <= j < |nums| ==> nums[j] in media.vals && have[j] == media.vals[nums[j]]
    }
  }
}
