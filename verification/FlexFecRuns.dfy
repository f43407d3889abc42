/**
 What the decoder of src/flexfec.js must recover: on the arrival of one packet, and over whole runs, where the
 packets known at the end are exactly those that the arrivals determine.
 */
module FlexFecRuns {
  import opened FlexFecCodec
  import opened FlexFecDecoding
  import opened FlexFecModel
  import opened JsMap
  import opened Options
  import opened SeqNum
  import opened Wire

  // ------------------------------------------------------------------
  // Groups and what is missing of them
  // ------------------------------------------------------------------

  /** `a` is the FEC packet of this group of media packets. */
  ghost predicate Covers(a: Arrival, cfg: Config, sent: Media, group: seq<Bytes>) {
    a.FecArrives? && GoodGroup(group, cfg.protectedSsrc, sent) && exists num: u16 :: a.buf == BuildFec(cfg, num, group)
  }

  ghost predicate Member(group: seq<Bytes>, n: u16) {
    exists i :: 0 <= i < |group| && |group[i]| >= FIXED_HDR && NumOf(group[i]) == n
  }

  /** `n` is the only member that is not known. */
  ghost predicate Lacks(group: seq<Bytes>, known: set<u16>, n: u16) {
    Member(group, n) && n !in known && forall k :: Member(group, k) && k != n ==> k in known
  }

  /** At least two members are not known. */
  ghost predicate LacksTwo(group: seq<Bytes>, known: set<u16>) {
    exists j, k :: Member(group, j) && Member(group, k) && j != k && j !in known && k !in known
  }

  ghost predicate Distinct(nums: seq<u16>) {
    forall i, j :: 0 <= i < j < |nums| ==> nums[i] != nums[j]
  }

  /** What the decoder makes of a FEC packet of the group. */
  ghost predicate ParsedFrom(f: Fec, group: seq<Bytes>) {
    Distinct(f.seqs) && forall n :: n in f.seqs <==> Member(group, n)
  }

  lemma CoversParsed(a: Arrival, cfg: Config, sent: Media, group: seq<Bytes>)
    requires Covers(a, cfg, sent, group) && Long(sent)
    ensures a.FecArrives?
    ensures var f := ParseFec(a.buf);
            f.Some? && Honest(f.value, cfg.protectedSsrc, sent) && ParsedFrom(f.value, group)
  {
    hide BuildFec, ParseFec, Honest, Forward;
    var num: u16 :| a.buf == BuildFec(cfg, num, group);
    GroupHonest(cfg, num, group, sent);
    var seqs := ParseFec(a.buf).value.seqs;
    forall n: u16 ensures n in seqs <==> Member(group, n) {
      assert n in seqs <==> n in multiset(seqs);
      assert n in Nums(group) <==> n in multiset(Nums(group));
      if i :| 0 <= i < |group| && NumOf(group[i]) == n {
        assert Nums(group)[i] == n;
      }
    }
  }

  lemma {:induction false} AbsentDistinct(nums: seq<u16>, known: set<u16>)
    requires Distinct(nums)
    ensures Distinct(Absent(nums, known))
    decreases |nums|
  {
    if nums != [] {
      AbsentDistinct(nums[1..], known);
      AbsentExact(nums[1..], known);
      assert nums[0] !in nums[1..];
    }
  }

  /** The missing members, counted in the parsed packet and named in the group. */
  lemma MissingOf(f: Fec, group: seq<Bytes>, known: set<u16>)
    requires ParsedFrom(f, group)
    ensures forall n: u16 :: Absent(f.seqs, known) == [n] <==> Lacks(group, known, n)
    ensures |Absent(f.seqs, known)| == 1 ==> Lacks(group, known, Absent(f.seqs, known)[0])
    ensures |Absent(f.seqs, known)| >= 2 <==> LacksTwo(group, known)
    ensures Absent(f.seqs, known) == [] <==> forall n :: Member(group, n) ==> n in known
  {
    hide Member;
    var missing := Absent(f.seqs, known);
    AbsentDistinct(f.seqs, known);
    AbsentExact(f.seqs, known);
    assert forall i :: 0 <= i < |missing| ==> missing[i] in missing;
    if |missing| >= 2 {
      assert missing[0] != missing[1];
    }
    forall n: u16 ensures missing == [n] <==> Lacks(group, known, n) {
      if Lacks(group, known, n) {
        assert n in missing;
        assert forall i :: 0 <= i < |missing| ==> missing[i] == n;
      }
    }
    if LacksTwo(group, known) {
      var j, k :| Member(group, j) && Member(group, k) && j != k && j !in known && k !in known;
      assert j in missing && k in missing;
    }
  }

  // ------------------------------------------------------------------
  // One settling
  // ------------------------------------------------------------------

  /** The packets recovered are new and follow the known ones in the order of the output. */
  ghost predicate Grows(keys: seq<u16>, out: seq<Bytes>, after: seq<u16>, sent: Media) {
    && |after| == |keys| + |out| && after[..|keys|] == keys
    && forall k :: 0 <= k < |out| ==> NewAt(after[|keys|..], out, sent, k)
  }

  ghost predicate NewAt(nums: seq<u16>, out: seq<Bytes>, sent: Media, k: nat) {
    k < |nums| && k < |out| && nums[k] in sent && out[k] == sent[nums[k]]
  }

  lemma GrowsOne(keys: seq<u16>, n: u16, out: seq<Bytes>, after: seq<u16>, sent: Media)
    requires n in sent && Grows(keys + [n], out, after, sent)
    ensures Grows(keys, [sent[n]] + out, after, sent)
  {
    var out', rest := [sent[n]] + out, after[|keys| + 1..];
    assert after == (keys + [n]) + rest;
    assert after[|keys|..] == [n] + rest;
    forall k | 0 <= k < |out'| ensures NewAt(after[|keys|..], out', sent, k) {
      if k > 0 {
        assert NewAt(rest, out, sent, k - 1);
      }
    }
  }

  lemma {:induction false} RecoverAllGrows(media: Window, fec: seq<Fec>, i: nat, ssrc: u32, sent: Media)
    requires i <= |fec| && Stream(ssrc, sent) && Long(sent)
    requires AllHonest(fec, ssrc, sent) && Genuine(media.vals, sent)
    ensures var r := RecoverAll(media, fec, i);
            && Grows(media.keys, r.out, r.media.keys, sent) && |r.fec| + |r.out| <= |fec|
            && forall f :: f in r.fec ==> f in fec
    decreases |fec|, i
  {
    hide TryRecover, Absent, Honest, Stream, Long, RemoveAt, Keep;
    if i > 0 {
      var f, shorter := fec[i - 1], RemoveAt(fec, i - 1);
      RecoverExact(f, ssrc, sent, media.vals);
      Removed(fec, i - 1);
      assert AllHonest(shorter, ssrc, sent);
      match TryRecover(f, media.vals)
      case Satisfied => RecoverAllGrows(media, shorter, i - 1, ssrc, sent);
      case Waiting => RecoverAllGrows(media, fec, i - 1, ssrc, sent);
      case Recovered(p) =>
        AbsentExact(f.seqs, media.vals.Keys);
        var n := Absent(f.seqs, media.vals.Keys)[0];
        assert n in Absent(f.seqs, media.vals.Keys);
        KeepGenuine(media, sent, ssrc, n);
        RecoverAllGrows(Keep(media, p), shorter, |fec| - 1, ssrc, sent);
        var rest := RecoverAll(Keep(media, p), shorter, |fec| - 1);
        hide Grows, Genuine, AllHonest;
        SentNumber(ssrc, sent, n);
        KeepRight(media, p);
        GrowsOne(media.keys, n, rest.out, rest.media.keys, sent);
    }
  }

  /** Every pending packet lacks at least two members. */
  ghost predicate AllLackTwo(fec: seq<Fec>, known: set<u16>) {
    forall f :: f in fec ==> |Absent(f.seqs, known)| >= 2
  }

  /** With every packet from the start on lacking two, nothing happens. */
  lemma {:induction false} NothingToRecover(media: Window, fec: seq<Fec>, i: nat)
    requires i <= |fec| && AllLackTwo(fec, media.vals.Keys)
    ensures RecoverAll(media, fec, i) == Outcome(media, fec, [])
    decreases i
  {
    if i > 0 {
      assert fec[i - 1] in fec;
      NothingToRecover(media, fec, i - 1);
    }
  }

  /** What holds of the decoder between arrivals. */
  ghost predicate Settled(st: Decoder, ssrc: u32, sent: Media)
    requires Long(sent)
  {
    Faithful(st, ssrc, sent) && AllLackTwo(st.fec, st.media.vals.Keys) && |st.fec| <= 64
  }

  /** A settling keeps faith, forgets nothing known, leaves every pending packet lacking two and every other one
      complete, and lists what it recovered in the order it became known. */
  ghost predicate SettledFrom(media: Window, fec: seq<Fec>, r: Turn, ssrc: u32, sent: Media)
    requires Long(sent)
  {
    && Faithful(r.st, ssrc, sent) && AllLackTwo(r.st.fec, r.st.media.vals.Keys)
    && Grows(media.keys, r.out, r.st.media.keys, sent) && |r.st.fec| + |r.out| <= |fec|
    && (forall f :: f in r.st.fec ==> f in fec)
    && (forall f :: f in fec ==> f in r.st.fec || Absent(f.seqs, r.st.media.vals.Keys) == [])
  }

  lemma SettleRight(media: Window, fec: seq<Fec>, ssrc: u32, sent: Media)
    requires Stream(ssrc, sent) && Long(sent) && AllHonest(fec, ssrc, sent) && Genuine(media.vals, sent)
    ensures SettledFrom(media, fec, Settle(media, fec), ssrc, sent)
  {
    hide RecoverAll, Honest, Stream, Long, Absent, Grows;
    RecoverAllPeels(media, fec, |fec|, ssrc, sent);
    RecoverAllGrows(media, fec, |fec|, ssrc, sent);
  }

  /** What was known stays known, and what is new was output. */
  lemma GrowsKeys(media: Window, out: seq<Bytes>, after: Window, sent: Media)
    requires Grows(media.keys, out, after.keys, sent)
    ensures media.vals.Keys <= after.vals.Keys
    ensures forall n :: n in after.vals && n !in media.vals ==> n in sent && sent[n] in out
  {
    forall n | n in media.vals ensures n in after.vals {
      assert n in media.keys;
      assert n in after.keys[..|media.keys|];
      assert n in after.keys;
    }
    forall n | n in after.vals && n !in media.vals ensures n in sent && sent[n] in out {
      assert n in after.keys && n !in media.keys;
      assert forall i :: 0 <= i < |media.keys| ==> after.keys[..|media.keys|][i] == after.keys[i];
      var i :| 0 <= i < |after.keys| && after.keys[i] == n;
      var k := i - |media.keys|;
      assert NewAt(after.keys[|media.keys|..], out, sent, k);
    }
  }

  // ------------------------------------------------------------------
  // One arrival
  // ------------------------------------------------------------------

  /** The FEC packet of a group of which one member is unknown yields that member. */
  lemma LastUnknownRecovered(st: Decoder, a: Arrival, win: nat, cfg: Config, sent: Media, group: seq<Bytes>, n: u16)
    requires Stream(cfg.protectedSsrc, sent) && Long(sent) && Faithful(st, cfg.protectedSsrc, sent)
    requires Covers(a, cfg, sent, group) && Lacks(group, st.media.vals.Keys, n)
    ensures n in sent && n in Receive(st, a, win).st.media.vals && sent[n] in Receive(st, a, win).out
  {
    hide Stream, Long, Settle, Covers, Lacks, Honest, ParseFec, Absent, Grows;
    CoversParsed(a, cfg, sent, group);
    var f := ParseFec(a.buf).value;
    var pending := Newest(st.fec + [f]);
    assert pending[|pending| - 1] == f;
    assert forall g :: g in pending ==> g in st.fec || g == f;
    SettleRight(st.media, pending, cfg.protectedSsrc, sent);
    var r := Receive(st, a, win);
    assert r == Settle(st.media, pending);
    GrowsKeys(st.media, r.out, r.st.media, sent);
    MissingOf(f, group, st.media.vals.Keys);
    AbsentShrinks(f.seqs, st.media.vals.Keys, r.st.media.vals.Keys);
    assert Absent(f.seqs, r.st.media.vals.Keys) == [];
    AbsentExact(f.seqs, st.media.vals.Keys);
    AbsentExact(f.seqs, r.st.media.vals.Keys);
    assert n in Absent(f.seqs, st.media.vals.Keys);
  }

  /** The FEC packet of a group of which two members are unknown waits; only when 64 wait already does the oldest
      leave. That of a complete group is of no use, but the oldest leaves all the same. */
  lemma FecWaits(st: Decoder, a: Arrival, win: nat, cfg: Config, sent: Media, group: seq<Bytes>)
    requires Stream(cfg.protectedSsrc, sent) && Long(sent) && Settled(st, cfg.protectedSsrc, sent)
    requires Covers(a, cfg, sent, group)
    ensures var r := Receive(st, a, win);
            var older := if |st.fec| < 64 then st.fec else st.fec[1..];
            && (LacksTwo(group, st.media.vals.Keys) ==>
                  ParseFec(a.buf).Some? && r == Turn(Decoder(st.media, older + [ParseFec(a.buf).value]), []))
            && ((forall n :: Member(group, n) ==> n in st.media.vals) ==> r == Turn(Decoder(st.media, older), []))
  {
    hide Stream, Long, Covers, LacksTwo, Honest, ParseFec, Absent, Member, Faithful, TryRecover;
    CoversParsed(a, cfg, sent, group);
    var f := ParseFec(a.buf).value;
    var older := if |st.fec| < 64 then st.fec else st.fec[1..];
    var pending := Newest(st.fec + [f]);
    PushNewest(st.fec, f);
    MissingOf(f, group, st.media.vals.Keys);
    if LacksTwo(group, st.media.vals.Keys) {
      NothingToRecover(st.media, pending, |pending|);
    }
    if forall n :: Member(group, n) ==> n in st.media.vals {
      Complete(st.media, older, f);
    }
  }

  lemma PushNewest(fec: seq<Fec>, f: Fec)
    requires |fec| <= 64
    ensures Newest(fec + [f]) == (if |fec| < 64 then fec else fec[1..]) + [f]
  {
    if |fec| == 64 {
      assert (fec + [f])[1..] == fec[1..] + [f];
    }
  }

  lemma Complete(media: Window, older: seq<Fec>, f: Fec)
    requires AllLackTwo(older, media.vals.Keys) && Absent(f.seqs, media.vals.Keys) == []
    ensures RecoverAll(media, older + [f], |older| + 1) == Outcome(media, older, [])
  {
    assert RemoveAt(older + [f], |older|) == older;
    NothingToRecover(media, older, |older|);
  }

  /** The numbers known after a media packet, before anything is recovered: the last `win` in the order in which
      they became known. */
  function Remembered(keys: seq<u16>, n: u16, win: nat): seq<u16> {
    var all := if n in keys then keys else keys + [n];
    if |all| <= win then all else all[|all| - win..]
  }

  lemma FirstOut(media: Window)
    requires media.keys != []
    ensures var rest := media.Delete(media.keys[0]);
            rest.Valid() && Long(rest.vals) && rest.keys == media.keys[1..]
  {
    media.DeleteValid(media.keys[0]);
    WithoutAbsent(media.keys[1..], media.keys[0]);
  }

  lemma {:induction false} TrimKeys(media: Window, win: nat)
    ensures Trim(media, win).keys == if |media.keys| <= win then media.keys else media.keys[|media.keys| - win..]
    decreases |media.keys|
  {
    hide Long, Without;
    TrimStep(media, win);
    hide Trim;
    if |media.keys| > win {
      FirstOut(media);
      TrimKeys(media.Delete(media.keys[0]), win);
    }
  }

  lemma TrimStep(media: Window, win: nat)
    ensures |media.keys| <= win ==> Trim(media, win) == media
    ensures |media.keys| > win ==>
              var rest := media.Delete(media.keys[0]);
              rest.Valid() && Long(rest.vals) && Trim(media, win) == Trim(rest, win)
  {
    hide Without;
    if |media.keys| > win {
      FirstOut(media);
    }
  }

  lemma KeepRight(media: Window, buf: Bytes)
    requires |buf| >= FIXED_HDR
    ensures var kept := Keep(media, buf);
            && kept.keys == (if NumOf(buf) in media.keys then media.keys else media.keys + [NumOf(buf)])
            && kept.vals == media.vals[NumOf(buf) := buf]
  {
  }

  /** The window after a media packet, before anything is recovered. */
  lemma KeptRight(media: Window, buf: Bytes, win: nat, sent: Media)
    requires |buf| >= FIXED_HDR && NumOf(buf) in sent && sent[NumOf(buf)] == buf && Genuine(media.vals, sent)
    ensures var kept := Trim(Keep(media, buf), win);
            && kept.keys == Remembered(media.keys, NumOf(buf), win) && Genuine(kept.vals, sent)
  {
    hide Long, Keep, Trim, NumOf;
    KeepRight(media, buf);
    TrimKeys(Keep(media, buf), win);
    TrimGenuine(Keep(media, buf), win, sent);
    hide Genuine;
  }

  lemma KeptAll(media: Window, buf: Bytes, win: nat)
    requires |buf| >= FIXED_HDR && |Keep(media, buf).keys| <= win
    ensures var kept := Trim(Keep(media, buf), win);
            && kept == Keep(media, buf) && |kept.keys| <= |media.keys| + 1
            && kept.vals.Keys == media.vals.Keys + {NumOf(buf)}
  {
    hide Long, Keep, Trim, NumOf;
    KeepRight(media, buf);
    TrimSame(Keep(media, buf), win);
  }

  lemma TrimGenuine(media: Window, win: nat, sent: Media)
    requires Genuine(media.vals, sent)
    ensures Genuine(Trim(media, win).vals, sent)
  {
    hide Trim, Long;
  }

  lemma TrimSame(media: Window, win: nat)
    ensures |media.keys| <= win ==> Trim(media, win) == media
  {
  }

  /** A media packet of the sender: the window keeps the latest, and what it completes is recovered. */
  lemma MediaRight(st: Decoder, buf: Bytes, win: nat, cfg: Config, sent: Media)
    requires Stream(cfg.protectedSsrc, sent) && Long(sent) && Settled(st, cfg.protectedSsrc, sent)
    requires FromSender(MediaArrives(buf), cfg, sent)
    ensures var r := Receive(st, MediaArrives(buf), win);
            var keys := Remembered(st.media.keys, NumOf(buf), win);
            && Settled(r.st, cfg.protectedSsrc, sent)
            && Grows(keys, r.out, r.st.media.keys, sent)
            && (forall f :: f in st.fec ==> f in r.st.fec || Absent(f.seqs, r.st.media.vals.Keys) == [])
            && (forall f :: f in r.st.fec ==> f in st.fec) && |r.st.fec| + |r.out| <= |st.fec|
  {
    hide Stream, Long, Settle, Honest, Absent, Trim, Keep, Remembered, Genuine, AllHonest, AllLackTwo;
    KeptRight(st.media, buf, win, sent);
    SettleRight(Trim(Keep(st.media, buf), win), st.fec, cfg.protectedSsrc, sent);
    MediaSettles(st, buf, win, cfg, sent);
  }

  lemma MediaSettles(st: Decoder, buf: Bytes, win: nat, cfg: Config, sent: Media)
    requires FromSender(MediaArrives(buf), cfg, sent)
    ensures Receive(st, MediaArrives(buf), win) == Settle(Trim(Keep(st.media, buf), win), st.fec)
  {
    hide Settle, Trim, Keep;
  }

  // ------------------------------------------------------------------
  // Whole runs without overflow
  // ------------------------------------------------------------------

  ghost function FecCount(arrivals: seq<Arrival>): nat {
    if arrivals == [] then 0
    else FecCount(arrivals[..|arrivals| - 1]) + if arrivals[|arrivals| - 1].FecArrives? then 1 else 0
  }

  ghost predicate AllFromSender(arrivals: seq<Arrival>, cfg: Config, sent: Media) {
    forall a :: a in arrivals ==> FromSender(a, cfg, sent)
  }

  /** Every packet that arrived is known, and no group whose FEC packet arrived is one short. */
  ghost predicate Closed(known: set<u16>, arrivals: seq<Arrival>, cfg: Config, sent: Media) {
    && (forall n :: n in sent && MediaArrives(sent[n]) in arrivals ==> n in known)
    && (forall a, group, n :: a in arrivals && Covers(a, cfg, sent, group) ==> !Lacks(group, known, n))
  }

  /** No more than `win` packets can become known: so few arrive, or nothing leads beyond some `win` of them. */
  ghost predicate Room(arrivals: seq<Arrival>, win: nat, cfg: Config, sent: Media) {
    || |arrivals| <= win
    || exists bound: set<u16> :: |bound| <= win && Closed(bound, arrivals, cfg, sent)
  }

  ghost predicate RoomNow(st: Decoder, a: Arrival, win: nat) {
    a.MediaArrives? && |a.buf| >= FIXED_HDR ==> |Keep(st.media, a.buf).keys| <= win
  }

  lemma ClosedBefore(known: set<u16>, arrivals: seq<Arrival>, a: Arrival, cfg: Config, sent: Media)
    requires Closed(known, arrivals + [a], cfg, sent)
    ensures Closed(known, arrivals, cfg, sent)
  {
    hide Covers, Lacks;
    assert forall b :: b in arrivals ==> b in arrivals + [a];
  }

  lemma RoomBefore(arrivals: seq<Arrival>, a: Arrival, win: nat, cfg: Config, sent: Media)
    requires Room(arrivals + [a], win, cfg, sent)
    ensures Room(arrivals, win, cfg, sent)
  {
    hide Closed;
    if |arrivals| >= win {
      var bound: set<u16> :| |bound| <= win && Closed(bound, arrivals + [a], cfg, sent);
      ClosedBefore(bound, arrivals, a, cfg, sent);
    }
  }

  lemma {:induction false} Within<T>(keys: seq<T>, bound: set<T>)
    requires (forall i, j :: 0 <= i < j < |keys| ==> keys[i] != keys[j]) && forall x :: x in keys ==> x in bound
    ensures |keys| <= |bound|
    decreases |keys|
  {
    if keys != [] {
      assert forall x :: x in keys[1..] ==> x in keys;
      assert keys[0] !in keys[1..];
      Within(keys[1..], bound - {keys[0]});
    }
  }

  /** With room, the window takes the next packet whole. */
  lemma RoomTakes(arrivals: seq<Arrival>, t: Turn, a: Arrival, win: nat, cfg: Config, sent: Media)
    requires Long(sent) && FromSender(a, cfg, sent) && Complies(arrivals, t, cfg, sent)
    requires |arrivals| < win || exists bound: set<u16> ::
               |bound| <= win && t.st.media.vals.Keys <= bound && Closed(bound, arrivals + [a], cfg, sent)
    ensures RoomNow(t.st, a, win)
  {
    hide Covers, Lacks, Settled, Long, Keep, NumOf;
    if a.MediaArrives? {
      KeepRight(t.st.media, a.buf);
      if |arrivals| >= win {
        var bound: set<u16> :|
          |bound| <= win && t.st.media.vals.Keys <= bound && Closed(bound, arrivals + [a], cfg, sent);
        assert a in arrivals + [a];
        Within(Keep(t.st.media, a.buf).keys, bound);
      }
    }
  }

  /** Nothing was pushed out: pending or complete is every FEC packet that arrived. */
  ghost predicate Complies(arrivals: seq<Arrival>, t: Turn, cfg: Config, sent: Media)
    requires Long(sent)
  {
    && Settled(t.st, cfg.protectedSsrc, sent)
    && |t.st.fec| <= FecCount(arrivals) && |t.st.media.keys| + |t.st.fec| <= |arrivals|
    && (forall a :: a in arrivals ==> Handled(a, t.st))
    && (forall f :: f in t.st.fec ==> exists a :: a in arrivals && a.FecArrives? && ParseFec(a.buf) == Some(f))
    && (forall n :: n in t.st.media.vals ==> n in sent && (MediaArrives(sent[n]) in arrivals || sent[n] in t.out))
  }

  ghost predicate Handled(a: Arrival, st: Decoder) {
    match a
    case MediaArrives(buf) => |buf| >= FIXED_HDR && NumOf(buf) in st.media.vals
    case FecArrives(buf) =>
      var f := ParseFec(buf);
      f.Some? && (f.value in st.fec || Absent(f.value.seqs, st.media.vals.Keys) == [])
  }

  lemma HandledStays(a: Arrival, st: Decoder, media: Window, r: Decoder)
    requires Handled(a, st) && st.media.vals.Keys <= media.vals.Keys <= r.media.vals.Keys
    requires forall f :: f in st.fec ==> f in r.fec || Absent(f.seqs, r.media.vals.Keys) == []
    ensures Handled(a, r)
  {
    hide ParseFec;
    if a.FecArrives? {
      AbsentShrinks(ParseFec(a.buf).value.seqs, st.media.vals.Keys, r.media.vals.Keys);
    }
  }

  /** The arrival of one packet, with room for it. */
  lemma ArrivalComplies(arrivals: seq<Arrival>, t: Turn, a: Arrival, win: nat, cfg: Config, sent: Media)
    requires Stream(cfg.protectedSsrc, sent) && Long(sent) && Complies(arrivals, t, cfg, sent)
    requires FromSender(a, cfg, sent) && RoomNow(t.st, a, win) && FecCount(arrivals + [a]) <= 64
    ensures var r := Receive(t.st, a, win);
            Complies(arrivals + [a], Turn(r.st, t.out + r.out), cfg, sent)
  {
    assert (arrivals + [a])[..|arrivals|] == arrivals;
    match a
    case MediaArrives(buf) => MediaComplies(arrivals, t, buf, win, cfg, sent);
    case FecArrives(buf) => FecComplies(arrivals, t, buf, win, cfg, sent);
  }

  lemma SettledComplies(arrivals: seq<Arrival>, t: Turn, a: Arrival, media: Window, fec: seq<Fec>, cfg: Config,
                        sent: Media)
    requires Stream(cfg.protectedSsrc, sent) && Long(sent) && Complies(arrivals, t, cfg, sent)
    requires AllHonest(fec, cfg.protectedSsrc, sent) && Genuine(media.vals, sent)
    requires t.st.media.vals.Keys <= media.vals.Keys && (forall f :: f in t.st.fec ==> f in fec)
    requires |fec| <= FecCount(arrivals + [a]) <= 64 && |media.keys| + |fec| <= |arrivals| + 1
    requires (forall f :: f in fec ==> f in t.st.fec || (a.FecArrives? && ParseFec(a.buf) == Some(f)))
    requires Handled(a, Decoder(media, fec))
    requires forall n :: n in media.vals && n !in t.st.media.vals ==> n in sent && a == MediaArrives(sent[n])
    ensures var r := Settle(media, fec);
            Complies(arrivals + [a], Turn(r.st, t.out + r.out), cfg, sent)
  {
    hide Stream, Long, Settle, Honest, Absent, Grows, ParseFec, FecCount, Handled, Genuine;
    var r, more := Settle(media, fec), arrivals + [a];
    SettleRight(media, fec, cfg.protectedSsrc, sent);
    GrowsKeys(media, r.out, r.st.media, sent);
    GrowsSize(media, r.out, r.st.media, sent);
    assert forall b :: b in more <==> b in arrivals || b == a;
    forall b | b in more ensures Handled(b, r.st) {
      if b == a {
        HandledStays(a, Decoder(media, fec), media, r.st);
      } else {
        HandledStays(b, t.st, media, r.st);
      }
    }
    forall n | n in r.st.media.vals
      ensures n in sent && (MediaArrives(sent[n]) in more || sent[n] in t.out + r.out)
    {
    }
    forall f | f in r.st.fec ensures exists b :: b in more && b.FecArrives? && ParseFec(b.buf) == Some(f) {
      if f in t.st.fec {
        var b :| b in arrivals && b.FecArrives? && ParseFec(b.buf) == Some(f);
        assert b in more;
      } else {
        assert a in more;
      }
    }
  }

  lemma GrowsSize(media: Window, out: seq<Bytes>, after: Window, sent: Media)
    requires Grows(media.keys, out, after.keys, sent)
    ensures |after.keys| == |media.keys| + |out|
  {
  }

  lemma MediaComplies(arrivals: seq<Arrival>, t: Turn, buf: Bytes, win: nat, cfg: Config, sent: Media)
    requires Stream(cfg.protectedSsrc, sent) && Long(sent) && Complies(arrivals, t, cfg, sent)
    requires FromSender(MediaArrives(buf), cfg, sent) && RoomNow(t.st, MediaArrives(buf), win)
    requires FecCount(arrivals + [MediaArrives(buf)]) == FecCount(arrivals) <= 64
    ensures var r := Receive(t.st, MediaArrives(buf), win);
            Complies(arrivals + [MediaArrives(buf)], Turn(r.st, t.out + r.out), cfg, sent)
  {
    hide Stream, Long, Settle, Honest, Absent, ParseFec, FecCount, Trim, Keep, Remembered, Genuine, AllHonest;
    KeptRight(t.st.media, buf, win, sent);
    KeptAll(t.st.media, buf, win);
    MediaSettles(t.st, buf, win, cfg, sent);
    SettledComplies(arrivals, t, MediaArrives(buf), Keep(t.st.media, buf), t.st.fec, cfg, sent);
  }

  lemma FecComplies(arrivals: seq<Arrival>, t: Turn, buf: Bytes, win: nat, cfg: Config, sent: Media)
    requires Stream(cfg.protectedSsrc, sent) && Long(sent) && Complies(arrivals, t, cfg, sent)
    requires FromSender(FecArrives(buf), cfg, sent)
    requires FecCount(arrivals + [FecArrives(buf)]) == FecCount(arrivals) + 1 <= 64
    ensures var r := Receive(t.st, FecArrives(buf), win);
            Complies(arrivals + [FecArrives(buf)], Turn(r.st, t.out + r.out), cfg, sent)
  {
    hide Stream, Long, Settle, Honest, Absent, ParseFec, FecCount, FromSender;
    SenderCovers(FecArrives(buf), cfg, sent);
    var f := ParseFec(buf).value;
    PushNewest(t.st.fec, f);
    SettledComplies(arrivals, t, FecArrives(buf), t.st.media, t.st.fec + [f], cfg, sent);
  }

  lemma {:induction false} RunComplies(arrivals: seq<Arrival>, win: nat, cfg: Config, sent: Media)
    requires Stream(cfg.protectedSsrc, sent) && Long(sent) && AllFromSender(arrivals, cfg, sent)
    requires Room(arrivals, win, cfg, sent) && FecCount(arrivals) <= 64
    ensures Complies(arrivals, Run(arrivals, win), cfg, sent)
    decreases |arrivals|
  {
    hide Receive, Stream, Long, Honest, FromSender, Closed, Complies, RoomNow;
    if arrivals != [] {
      var init, last := arrivals[..|arrivals| - 1], arrivals[|arrivals| - 1];
      assert arrivals == init + [last];
      assert last in arrivals && forall a :: a in init ==> a in arrivals;
      RoomBefore(init, last, win, cfg, sent);
      RunComplies(init, win, cfg, sent);
      if |arrivals| > win {
        var bound: set<u16> :| |bound| <= win && Closed(bound, arrivals, cfg, sent);
        ClosedBefore(bound, init, last, cfg, sent);
        RunInside(init, win, cfg, sent, bound);
      }
      RoomTakes(init, Run(init, win), last, win, cfg, sent);
      ArrivalComplies(init, Run(init, win), last, win, cfg, sent);
    } else {
      StartComplies(win, cfg, sent);
    }
  }

  lemma StartComplies(win: nat, cfg: Config, sent: Media)
    requires Long(sent)
    ensures Complies([], Run([], win), cfg, sent)
  {
  }

  lemma CompliesClosed(arrivals: seq<Arrival>, t: Turn, cfg: Config, sent: Media)
    requires Stream(cfg.protectedSsrc, sent) && Long(sent) && Complies(arrivals, t, cfg, sent)
    ensures Closed(t.st.media.vals.Keys, arrivals, cfg, sent)
  {
    hide Honest, ParseFec, Covers, Lacks, Absent;
    var known := t.st.media.vals.Keys;
    forall n | n in sent && MediaArrives(sent[n]) in arrivals ensures n in known {
      SentNumber(cfg.protectedSsrc, sent, n);
      assert Handled(MediaArrives(sent[n]), t.st);
    }
    forall a, group, n | a in arrivals && Covers(a, cfg, sent, group) ensures !Lacks(group, known, n) {
      CoversParsed(a, cfg, sent, group);
      CoversFec(a, cfg, sent, group);
      assert Handled(a, t.st);
      MissingOf(ParseFec(a.buf).value, group, known);
    }
  }

  lemma CoversFec(a: Arrival, cfg: Config, sent: Media, group: seq<Bytes>)
    requires Covers(a, cfg, sent, group)
    ensures a.FecArrives?
  {
  }

  /** No step recovers more than a closed set holds. */
  lemma {:induction false} RunInside(arrivals: seq<Arrival>, win: nat, cfg: Config, sent: Media, bound: set<u16>)
    requires Stream(cfg.protectedSsrc, sent) && Long(sent) && AllFromSender(arrivals, cfg, sent)
    requires Room(arrivals, win, cfg, sent) && FecCount(arrivals) <= 64 && Closed(bound, arrivals, cfg, sent)
    ensures Run(arrivals, win).st.media.vals.Keys <= bound
    decreases |arrivals|
  {
    hide Stream, Long, Honest, Closed, Settle, Trim, Absent, ParseFec, Receive, FromSender, Complies, Room;
    if arrivals != [] {
      var init, last := arrivals[..|arrivals| - 1], arrivals[|arrivals| - 1];
      assert arrivals == init + [last];
      assert last in arrivals && forall a :: a in init ==> a in arrivals;
      RoomBefore(init, last, win, cfg, sent);
      ClosedBefore(bound, init, last, cfg, sent);
      RunInside(init, win, cfg, sent, bound);
      RunComplies(init, win, cfg, sent);
      ArrivalInside(init, Run(init, win), last, win, cfg, sent, bound);
    }
  }

  lemma ArrivalInside(arrivals: seq<Arrival>, t: Turn, a: Arrival, win: nat, cfg: Config, sent: Media, bound: set<u16>)
    requires Stream(cfg.protectedSsrc, sent) && Long(sent) && Complies(arrivals, t, cfg, sent)
    requires AllFromSender(arrivals + [a], cfg, sent) && Closed(bound, arrivals + [a], cfg, sent)
    requires t.st.media.vals.Keys <= bound
    ensures Receive(t.st, a, win).st.media.vals.Keys <= bound
  {
    hide Closed, AllFromSender, Complies;
    match a
    case MediaArrives(buf) => MediaInside(arrivals, t, buf, win, cfg, sent, bound);
    case FecArrives(buf) => FecInside(arrivals, t, buf, win, cfg, sent, bound);
  }

  lemma MediaInside(arrivals: seq<Arrival>, t: Turn, buf: Bytes, win: nat, cfg: Config, sent: Media, bound: set<u16>)
    requires Stream(cfg.protectedSsrc, sent) && Long(sent) && Complies(arrivals, t, cfg, sent)
    requires AllFromSender(arrivals + [MediaArrives(buf)], cfg, sent)
    requires Closed(bound, arrivals + [MediaArrives(buf)], cfg, sent) && t.st.media.vals.Keys <= bound
    ensures Receive(t.st, MediaArrives(buf), win).st.media.vals.Keys <= bound
  {
    hide Stream, Long, Honest, Covers, Lacks, Absent, ParseFec, FecCount, Keep, Remembered, Genuine, Trim, RecoverAll;
    var more := arrivals + [MediaArrives(buf)];
    assert MediaArrives(buf) in more && FromSender(MediaArrives(buf), cfg, sent);
    KeptRight(t.st.media, buf, win, sent);
    MediaSettles(t.st, buf, win, cfg, sent);
    KeptInside(t.st.media, buf, win);
    forall f | f in t.st.fec ensures |Absent(f.seqs, bound)| != 1 {
      FecStable(arrivals, t, f, more, cfg, sent, bound);
    }
    RecoverAllLeast(Trim(Keep(t.st.media, buf), win), t.st.fec, |t.st.fec|, cfg.protectedSsrc, sent, bound);
  }

  lemma KeptInside(media: Window, buf: Bytes, win: nat)
    requires |buf| >= FIXED_HDR
    ensures Trim(Keep(media, buf), win).vals.Keys <= media.vals.Keys + {NumOf(buf)}
  {
    hide Long;
  }

  lemma FecInside(arrivals: seq<Arrival>, t: Turn, buf: Bytes, win: nat, cfg: Config, sent: Media, bound: set<u16>)
    requires Stream(cfg.protectedSsrc, sent) && Long(sent) && Complies(arrivals, t, cfg, sent)
    requires AllFromSender(arrivals + [FecArrives(buf)], cfg, sent)
    requires Closed(bound, arrivals + [FecArrives(buf)], cfg, sent) && t.st.media.vals.Keys <= bound
    ensures Receive(t.st, FecArrives(buf), win).st.media.vals.Keys <= bound
  {
    hide Stream, Long, Honest, Absent, ParseFec, FecCount, FromSender, Closed, RecoverAll;
    var a := FecArrives(buf);
    var more := arrivals + [a];
    assert a in more && FromSender(a, cfg, sent);
    SenderCovers(a, cfg, sent);
    var f := ParseFec(buf).value;
    PushNewest(t.st.fec, f);
    var pending := Newest(t.st.fec + [f]);
    assert forall g :: g in pending ==> g in t.st.fec || g == f;
    forall g | g in pending ensures |Absent(g.seqs, bound)| != 1 {
      if g == f {
        ArrivedStable(a, more, cfg, sent, bound);
      } else {
        FecStable(arrivals, t, g, more, cfg, sent, bound);
      }
    }
    RecoverAllLeast(t.st.media, pending, |pending|, cfg.protectedSsrc, sent, bound);
  }

  lemma SenderCovers(a: Arrival, cfg: Config, sent: Media)
    requires FromSender(a, cfg, sent) && a.FecArrives? && Long(sent)
    ensures ParseFec(a.buf).Some? && Honest(ParseFec(a.buf).value, cfg.protectedSsrc, sent)
    ensures exists group :: Covers(a, cfg, sent, group)
  {
    var num: u16, group: seq<Bytes> :| GoodGroup(group, cfg.protectedSsrc, sent) && a.buf == BuildFec(cfg, num, group);
    assert Covers(a, cfg, sent, group);
    CoversParsed(a, cfg, sent, group);
  }

  lemma ArrivedStable(a: Arrival, arrivals: seq<Arrival>, cfg: Config, sent: Media, bound: set<u16>)
    requires a in arrivals && FromSender(a, cfg, sent) && a.FecArrives? && Long(sent)
    requires Closed(bound, arrivals, cfg, sent)
    ensures ParseFec(a.buf).Some? && |Absent(ParseFec(a.buf).value.seqs, bound)| != 1
  {
    hide Covers, Lacks, Absent, ParseFec, Honest;
    SenderCovers(a, cfg, sent);
    var group :| Covers(a, cfg, sent, group);
    CoversParsed(a, cfg, sent, group);
    MissingOf(ParseFec(a.buf).value, group, bound);
  }

  lemma FecStable(arrivals: seq<Arrival>, t: Turn, f: Fec, more: seq<Arrival>, cfg: Config, sent: Media,
                  bound: set<u16>)
    requires Long(sent) && Complies(arrivals, t, cfg, sent) && f in t.st.fec
    requires (forall b :: b in arrivals ==> b in more) && AllFromSender(more, cfg, sent)
    requires Closed(bound, more, cfg, sent)
    ensures |Absent(f.seqs, bound)| != 1
  {
    hide Covers, Lacks, Absent, ParseFec, Honest, FromSender;
    var b :| b in arrivals && b.FecArrives? && ParseFec(b.buf) == Some(f);
    ArrivedStable(b, more, cfg, sent, bound);
  }

  /** A run with room in the window and at most 64 FEC packets, in any order, with any loss and repetition: what is
      known at the end is the least set that holds what arrived and leaves no group one short whose FEC packet
      arrived; and everything known arrived or was output. */
  lemma RunRecovers(arrivals: seq<Arrival>, win: nat, cfg: Config, sent: Media)
    requires Stream(cfg.protectedSsrc, sent) && Long(sent) && AllFromSender(arrivals, cfg, sent)
    requires Room(arrivals, win, cfg, sent) && FecCount(arrivals) <= 64
    ensures var t := Run(arrivals, win);
            var known := t.st.media.vals.Keys;
            && Closed(known, arrivals, cfg, sent)
            && (forall bound :: Closed(bound, arrivals, cfg, sent) ==> known <= bound)
            && forall n :: n in known ==>
                 n in sent && t.st.media.vals[n] == sent[n] && (MediaArrives(sent[n]) in arrivals || sent[n] in t.out)
  {
    hide Stream, Long, Closed, Run, Room;
    RunComplies(arrivals, win, cfg, sent);
    CompliesClosed(arrivals, Run(arrivals, win), cfg, sent);
    forall bound | Closed(bound, arrivals, cfg, sent) ensures Run(arrivals, win).st.media.vals.Keys <= bound {
      RunInside(arrivals, win, cfg, sent, bound);
    }
  }

  /** So the order of arrival does not matter, nor does repetition. */
  lemma AnyOrder(a: seq<Arrival>, b: seq<Arrival>, win: nat, cfg: Config, sent: Media)
    requires Stream(cfg.protectedSsrc, sent) && Long(sent) && AllFromSender(a, cfg, sent)
    requires Room(a, win, cfg, sent) && Room(b, win, cfg, sent) && FecCount(a) <= 64 && FecCount(b) <= 64
    requires forall x :: x in a <==> x in b
    ensures Run(a, win).st.media.vals == Run(b, win).st.media.vals
  {
    hide Stream, Long, Run, FecCount, FromSender, Room, Covers, Lacks;
    RunRecovers(a, win, cfg, sent);
    RunRecovers(b, win, cfg, sent);
    var known, known' := Run(a, win).st.media.vals.Keys, Run(b, win).st.media.vals.Keys;
    assert Closed(known, b, cfg, sent) && Closed(known', a, cfg, sent);
  }

  /** A group all of whose members but one arrived, and its FEC packet with them, in any order: the last one is
      known at the end, and was output unless it arrived too. */
  lemma GroupRecovered(arrivals: seq<Arrival>, win: nat, cfg: Config, sent: Media, a: Arrival, group: seq<Bytes>,
                       n: u16)
    requires Stream(cfg.protectedSsrc, sent) && Long(sent) && AllFromSender(arrivals, cfg, sent)
    requires Room(arrivals, win, cfg, sent) && FecCount(arrivals) <= 64
    requires a in arrivals && Covers(a, cfg, sent, group) && Member(group, n)
    requires forall k :: Member(group, k) && k != n ==> k in sent && MediaArrives(sent[k]) in arrivals
    ensures var t := Run(arrivals, win);
            n in sent && n in t.st.media.vals && (MediaArrives(sent[n]) in arrivals || sent[n] in t.out)
  {
    hide Stream, Long, Run, FecCount, FromSender, Room, Covers;
    RunRecovers(arrivals, win, cfg, sent);
    var known := Run(arrivals, win).st.media.vals.Keys;
    assert !Lacks(group, known, n);
  }

  /** There is room in every run over a stream of at most `win` packets, however often they come. */
  lemma FewSent(arrivals: seq<Arrival>, win: nat, cfg: Config, sent: Media)
    requires |sent.Keys| <= win && Long(sent)
    ensures Room(arrivals, win, cfg, sent)
  {
    forall a, group, n | a in arrivals && Covers(a, cfg, sent, group) ensures !Lacks(group, sent.Keys, n) {
      if Member(group, n) {
        assert n in sent;
      }
    }
    assert Closed(sent.Keys, arrivals, cfg, sent);
  }

  ghost predicate Pair(group: seq<Bytes>, a: u16, b: u16) {
    forall n :: Member(group, n) <==> n == a || n == b
  }

  /** That few media packets arrive is not enough, for what is recovered takes a place in the window: with room for two
      packets and two media arrivals, `b` is recovered from `a`, then `c` pushes `a` out, and the FEC packet of `a`
      and `d` recovers nothing although `a` arrived. */
  lemma RecoveredTakesPlace(cfg: Config, sent: Media, a: u16, b: u16, c: u16, d: u16, ab: Arrival, ad: Arrival,
                            abs: seq<Bytes>, ads: seq<Bytes>)
    requires Stream(cfg.protectedSsrc, sent) && Long(sent) && a in sent && b in sent && c in sent
    requires b != a && c !in [a, b] && d !in [a, b, c]
    requires Covers(ab, cfg, sent, abs) && Pair(abs, a, b) && Covers(ad, cfg, sent, ads) && Pair(ads, a, d)
    ensures var t := Run([MediaArrives(sent[a]), ab, MediaArrives(sent[c]), ad], 2);
            t.out == [sent[b]] && t.st.media.keys == [b, c]
  {
    hide Run, Stream, Covers, Receive, Settled, Pair;
    RunFour(MediaArrives(sent[a]), ab, MediaArrives(sent[c]), ad, 2);
    var start := Decoder(Map([], map[]), []);
    OneKnown(start, cfg, sent, a);
    FromOne(Receive(start, MediaArrives(sent[a]), 2).st, cfg, sent, a, b, c, d, ab, ad, abs, ads);
  }

  lemma FromOne(st: Decoder, cfg: Config, sent: Media, a: u16, b: u16, c: u16, d: u16, ab: Arrival, ad: Arrival,
                abs: seq<Bytes>, ads: seq<Bytes>)
    requires Stream(cfg.protectedSsrc, sent) && Long(sent) && a in sent && b in sent && c in sent
    requires b != a && c !in [a, b] && d !in [a, b, c]
    requires Covers(ab, cfg, sent, abs) && Pair(abs, a, b) && Covers(ad, cfg, sent, ads) && Pair(ads, a, d)
    requires Settled(st, cfg.protectedSsrc, sent) && st.media.keys == [a] && st.fec == []
    ensures var s2 := Receive(st, ab, 2);
            var s3 := Receive(s2.st, MediaArrives(sent[c]), 2);
            var s4 := Receive(s3.st, ad, 2);
            s2.out == [sent[b]] && s3.out == [] && s4.out == [] && s4.st.media.keys == [b, c]
  {
    hide Stream, Long, Covers, Receive, Settled, Pair;
    OneRecovered(st, ab, cfg, sent, abs, a, b);
    var s2 := Receive(st, ab, 2);
    OnePushedOut(s2.st, cfg, sent, a, b, c);
    TwoLacking(Receive(s2.st, MediaArrives(sent[c]), 2).st, ad, cfg, sent, ads, a, d);
  }

  lemma RunFour(a: Arrival, b: Arrival, c: Arrival, d: Arrival, win: nat)
    ensures var s1 := Receive(Decoder(Map([], map[]), []), a, win);
            var s2 := Receive(s1.st, b, win);
            var s3 := Receive(s2.st, c, win);
            var s4 := Receive(s3.st, d, win);
            Run([a, b, c, d], win) == Turn(s4.st, s1.out + s2.out + s3.out + s4.out)
  {
    hide Receive;
    RunOn([], a, win);
    RunOn([a], b, win);
    RunOn([a, b], c, win);
    RunOn([a, b, c], d, win);
    assert [] + [a] == [a] && [a] + [b] == [a, b] && [a, b] + [c] == [a, b, c] && [a, b, c] + [d] == [a, b, c, d];
  }

  lemma RunOn(before: seq<Arrival>, a: Arrival, win: nat)
    ensures var t := Run(before, win);
            var r := Receive(t.st, a, win);
            Run(before + [a], win) == Turn(r.st, t.out + r.out)
  {
    hide Receive;
    assert (before + [a])[..|before|] == before;
  }

  lemma OneKnown(st: Decoder, cfg: Config, sent: Media, a: u16)
    requires Stream(cfg.protectedSsrc, sent) && Long(sent) && a in sent && st == Decoder(Map([], map[]), [])
    ensures var r := Receive(st, MediaArrives(sent[a]), 2);
            r.st.media.keys == [a] && r.st.fec == [] && r.out == [] && Settled(r.st, cfg.protectedSsrc, sent)
  {
    SentNumber(cfg.protectedSsrc, sent, a);
    hide Stream, Long, Receive, NumOf;
    MediaRight(st, sent[a], 2, cfg, sent);
  }

  lemma OneRecovered(st: Decoder, f: Arrival, cfg: Config, sent: Media, group: seq<Bytes>, a: u16, b: u16)
    requires Stream(cfg.protectedSsrc, sent) && Long(sent) && a in sent && b in sent && a != b
    requires Settled(st, cfg.protectedSsrc, sent) && st.media.keys == [a] && st.fec == []
    requires Covers(f, cfg, sent, group) && Pair(group, a, b)
    ensures var r := Receive(st, f, 2);
            && r.st.media.keys == [a, b] && r.st.fec == [] && r.out == [sent[b]]
            && Settled(r.st, cfg.protectedSsrc, sent)
  {
    hide Stream, Long, Covers, Honest, ParseFec, Settle, Absent;
    assert a in st.media.keys && b !in st.media.keys;
    assert Lacks(group, st.media.vals.Keys, b) by {
      assert Member(group, b);
    }
    LastUnknownRecovered(st, f, 2, cfg, sent, group, b);
    CoversParsed(f, cfg, sent, group);
    var pending := [ParseFec(f.buf).value];
    assert Newest(st.fec + pending) == pending;
    SettleRight(st.media, pending, cfg.protectedSsrc, sent);
    var r := Receive(st, f, 2);
    assert r == Settle(st.media, pending);
    assert |r.out| == 1 && r.out == [sent[b]];
    assert b in r.st.media.keys;
    assert r.st.media.keys[..1] == [a];
  }

  lemma TwoLacking(st: Decoder, f: Arrival, cfg: Config, sent: Media, group: seq<Bytes>, a: u16, d: u16)
    requires Stream(cfg.protectedSsrc, sent) && Long(sent) && Settled(st, cfg.protectedSsrc, sent)
    requires Covers(f, cfg, sent, group) && Pair(group, a, d) && a != d
    requires a !in st.media.keys && d !in st.media.keys
    ensures Receive(st, f, 2).out == [] && Receive(st, f, 2).st.media == st.media
  {
    hide Stream, Long, Covers, Receive, Faithful;
    assert LacksTwo(group, st.media.vals.Keys) by {
      assert Member(group, a) && Member(group, d);
    }
    FecWaits(st, f, 2, cfg, sent, group);
  }

  lemma OnePushedOut(st: Decoder, cfg: Config, sent: Media, a: u16, b: u16, c: u16)
    requires Stream(cfg.protectedSsrc, sent) && Long(sent) && c in sent && c != a && c != b
    requires Settled(st, cfg.protectedSsrc, sent) && st.media.keys == [a, b] && st.fec == []
    ensures var r := Receive(st, MediaArrives(sent[c]), 2);
            r.st.media.keys == [b, c] && r.st.fec == [] && r.out == [] && Settled(r.st, cfg.protectedSsrc, sent)
  {
    SentNumber(cfg.protectedSsrc, sent, c);
    hide Stream, Long, Receive, NumOf, Settled, Grows;
    assert Remembered(st.media.keys, c, 2) == [b, c];
    MediaRight(st, sent[c], 2, cfg, sent);
    GrowsNothing([b, c], Receive(st, MediaArrives(sent[c]), 2).st.media.keys, sent);
  }

  lemma GrowsNothing(keys: seq<u16>, after: seq<u16>, sent: Media)
    ensures Grows(keys, [], after, sent) ==> after == keys
  {
  }
}
