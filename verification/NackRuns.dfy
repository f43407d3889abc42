/**
 What the NACK generator of src/retransmit.js must do: which numbers an arrival leaves missing, which of them a
 feedback lists, and that a missing number is requested once it is due.
 */
module NackRuns {
  import opened HistogramModel
  import opened JsMap
  import opened NackModel
  import opened Ranges

  // ------------------------------------------------------------------
  // What an arrival leaves missing
  // ------------------------------------------------------------------

  /** The numbers between the highest and `n` that were not received. */
  ghost function GapBefore(g: Gen, n: int): set<int> {
    set k | g.highest < k < n && !Contains(g.received, k)
  }

  /** The missing numbers that the latest keyframe does not supersede. */
  ghost function NotSuperseded(missing: set<int>, keyframes: seq<int>): set<int> {
    set k | k in missing && forall f :: f in keyframes ==> k >= f
  }

  ghost function NoOlder(keys: set<int>, cutoff: int): set<int> {
    set k | k in keys && k >= cutoff
  }

  /** The entries kept are as they were, the others are new, dated now and to wait for the median distance. */
  ghost predicate Dates(cfg: Config, g: Gen, r: Gen, now: int) {
    forall k :: k in r.missing.vals ==>
      r.missing.vals[k] ==
        if k in g.missing.vals then g.missing.vals[k] else Info(now, 0, 0, k + Wait(cfg, g.late))
  }

  ghost function Unreceived(received: seq<int>, start: int, end: int): set<int> {
    set k | start <= k < end && !Contains(received, k)
  }

  lemma {:induction false} CountGap(received: seq<int>, start: int, end: int)
    ensures CountNew(received, start, end) == |Unreceived(received, start, end)|
    decreases end - start
  {
    hide Contains;
    if start < end {
      CountGap(received, start + 1, end);
      var rest := Unreceived(received, start + 1, end);
      assert Unreceived(received, start, end) == if Contains(received, start) then rest else {start} + rest;
    } else {
      assert Unreceived(received, start, end) == {};
    }
  }

  /** The state with `n` received, before its place is looked at. */
  function Received(g: Gen, n: int): Gen {
    g.(received := AddOne(g.received, n), missing := g.missing.Delete(n))
  }

  lemma ReceivedFacts(cfg: Config, g: Gen, n: nat)
    requires Inv(cfg, g)
    ensures Inv(cfg, Received(g, n))
    ensures Received(g, n).missing.vals == g.missing.vals - {n}
    ensures forall y :: Contains(Received(g, n).received, y) <==> y == n || Contains(g.received, y)
    ensures n > g.highest ==>
              Received(g, n).missing.vals == g.missing.vals && GapBefore(Received(g, n), n) == GapBefore(g, n)
  {
    ArrivalInv(cfg, g, n);
    hide Contains, Ordered, AddOne, Sorted;
    if n > g.highest {
      assert n !in g.missing.vals;
      assert g.missing.vals - {n} == g.missing.vals;
      assert GapBefore(Received(g, n), n) == GapBefore(g, n);
    }
  }

  lemma KeyCount(m: Missing)
    requires m.Valid()
    ensures |m.keys| == |m.vals.Keys|
  {
    KeySet(m.keys);
    assert (set k | k in m.keys) == m.vals.Keys;
  }

  lemma {:induction false} KeySet(keys: seq<int>)
    requires forall i, j :: 0 <= i < j < |keys| ==> keys[i] != keys[j]
    ensures |set k | k in keys| == |keys|
  {
    if keys != [] {
      KeySet(keys[1..]);
      assert keys[0] !in keys[1..];
      assert (set k | k in keys) == {keys[0]} + set k | k in keys[1..];
    }
  }

  /** Dropping below the last keyframe drops what it supersedes. */
  lemma Superseded(cfg: Config, g: Gen)
    requires Inv(cfg, g) && g.keyframes != []
    ensures var m := EvictBelow(g.missing, g.keyframes[|g.keyframes| - 1]);
            && Ordered(m) && m.vals.Keys == NotSuperseded(g.missing.vals.Keys, g.keyframes)
            && forall k :: k in m.vals ==> m.vals[k] == g.missing.vals[k]
  {
    var last := g.keyframes[|g.keyframes| - 1];
    EvictExact(g.missing, last);
    hide Contains, Sorted, EvictBelow;
    assert last in g.keyframes;
    forall f | f in g.keyframes ensures f <= last {
      var i :| 0 <= i < |g.keyframes| && g.keyframes[i] == f;
    }
  }

  /** The gap's unreceived numbers fit beside what is missing. */
  ghost predicate Fits(cfg: Config, missing: set<int>, gap: set<int>) {
    |missing| + |gap| <= cfg.maxNackEntries
  }

  /** They fit neither beside it nor beside what the latest keyframe leaves of it. */
  ghost predicate GivesUp(cfg: Config, missing: set<int>, keyframes: seq<int>, gap: set<int>) {
    !Fits(cfg, missing, gap) && (keyframes == [] || !Fits(cfg, NotSuperseded(missing, keyframes), gap))
  }

  /** What is missing after a gap. */
  ghost function LeftMissing(cfg: Config, missing: set<int>, keyframes: seq<int>, gap: set<int>): set<int> {
    if Fits(cfg, missing, gap) then missing + gap
    else if GivesUp(cfg, missing, keyframes, gap) then {}
    else NotSuperseded(missing, keyframes) + gap
  }

  lemma GapAdded(cfg: Config, g: Gen, n: int, now: int, room: Missing)
    requires Inv(cfg, g) && Ordered(room) && (forall k :: k in room.vals ==> k in g.missing.vals)
    requires forall k :: k in room.vals ==> room.vals[k] == g.missing.vals[k]
    ensures var m := Insert(room, g.received, g.highest + 1, n, now, Wait(cfg, g.late));
            && Ordered(m) && m.vals.Keys == room.vals.Keys + GapBefore(g, n)
            && Dates(cfg, g, g.(missing := m), now)
  {
    hide Ordered, Contains, Sorted, Insert, Wait, CountNew;
    InsertExact(room, g.received, g.highest + 1, n, now, Wait(cfg, g.late));
    forall k | k in GapBefore(g, n) ensures k !in g.missing.vals {
    }
  }

  /** What a gap leaves missing, before anything ages. */
  lemma RangeRight(cfg: Config, g: Gen, n: int, now: int)
    requires Inv(cfg, g)
    ensures var r := AddMissingRange(cfg, g, g.highest + 1, n, now, Wait(cfg, g.late));
            && Ordered(r.missing) && Dates(cfg, g, r, now)
            && r == g.(missing := r.missing, needKeyframe := r.needKeyframe)
            && r.missing.vals.Keys == LeftMissing(cfg, g.missing.vals.Keys, g.keyframes, GapBefore(g, n))
            && r.needKeyframe == (g.needKeyframe || GivesUp(cfg, g.missing.vals.Keys, g.keyframes, GapBefore(g, n)))
  {
    hide Ordered, Contains, Sorted, Insert, Wait, CountNew, EvictBelow, Ascending;
    InvParts(cfg, g);
    CountGap(g.received, g.highest + 1, n);
    assert Unreceived(g.received, g.highest + 1, n) == GapBefore(g, n);
    OrderedCount(g.missing);
    GapAdded(cfg, g, n, now, g.missing);
    if g.keyframes != [] {
      Superseded(cfg, g);
      var room := EvictBelow(g.missing, g.keyframes[|g.keyframes| - 1]);
      OrderedCount(room);
      GapAdded(cfg, g, n, now, room);
    }
    EmptyOrdered();
  }

  lemma OrderedCount(m: Missing)
    requires Ordered(m)
    ensures |m.keys| == |m.vals.Keys|
  {
    KeyCount(m);
  }

  lemma EmptyOrdered()
    ensures Ordered(Map([], map[]))
  {
  }

  /** Ageing out. */
  lemma Aged(cfg: Config, g: Gen)
    requires Ordered(g.missing) && forall k :: k in g.missing.vals ==> k >= 0
    ensures var r := EvictOld(cfg, g);
            && r.missing.vals.Keys == NoOlder(g.missing.vals.Keys, g.highest - cfg.maxPacketAge)
            && (forall k :: k in r.missing.vals ==> r.missing.vals[k] == g.missing.vals[k])
            && r.needKeyframe == g.needKeyframe && r.highest == g.highest
  {
    hide Ordered, EvictBelow, Clip, DropBelow;
    EvictExact(g.missing, g.highest - cfg.maxPacketAge);
  }

  /** A packet that is no keyframe and comes directly, with a gap before it: when the gap's unreceived numbers fit
      beside what is missing, or beside what the latest keyframe does not supersede, they go missing, dated now;
      otherwise the list is given up for a keyframe. What is older than the window leaves. */
  lemma GapNoted(cfg: Config, g: Gen, n: nat, now: int)
    requires Inv(cfg, g) && g.started && n > g.highest + 1
    ensures var r := Observe(cfg, g, n, false, false, now);
            var missing, gap := g.missing.vals.Keys, GapBefore(g, n);
            && r.highest == n && Dates(cfg, g, r, now)
            && r.missing.vals.Keys == NoOlder(LeftMissing(cfg, missing, g.keyframes, gap), n - cfg.maxPacketAge)
            && r.needKeyframe == (g.needKeyframe || GivesUp(cfg, missing, g.keyframes, gap))
  {
    hide Contains, Sorted, Ordered, AddMissingRange, EvictOld, Observe, Wait, LeftMissing, GivesUp, Dates, NoOlder;
    ReceivedFacts(cfg, g, n);
    GapObserved(cfg, g, n, now);
    LeftNatural(cfg, g, n);
    var g1 := Received(g, n);
    assert g1.late == g.late && g1.highest == g.highest && g1.keyframes == g.keyframes;
    assert g1.needKeyframe == g.needKeyframe;
    hide Inv, Received, GapBefore;
    RangeRight(cfg, g1, n, now);
    AgedLeft(cfg, g, g1, AddMissingRange(cfg, g1, g1.highest + 1, n, now, Wait(cfg, g1.late)), now, n);
  }

  lemma AgedLeft(cfg: Config, g: Gen, g1: Gen, g2: Gen, now: int, n: int)
    requires Ordered(g2.missing) && (forall k :: k in g2.missing.vals.Keys ==> k >= 0)
    requires Dates(cfg, g1, g2, now) && g1.missing.vals == g.missing.vals && g1.late == g.late
    ensures var r := EvictOld(cfg, g2.(highest := n));
            && r.missing.vals.Keys == NoOlder(g2.missing.vals.Keys, n - cfg.maxPacketAge)
            && Dates(cfg, g, r, now) && r.needKeyframe == g2.needKeyframe && r.highest == n
  {
    hide EvictOld, Ordered, Wait;
    Aged(cfg, g2.(highest := n));
  }

  lemma LeftNatural(cfg: Config, g: Gen, n: int)
    requires Inv(cfg, g)
    ensures forall k :: k in LeftMissing(cfg, g.missing.vals.Keys, g.keyframes, GapBefore(g, n)) ==> k >= 0
  {
  }

  lemma GapObserved(cfg: Config, g: Gen, n: nat, now: int)
    requires g.started && n > g.highest + 1
    ensures var g1 := Received(g, n);
            Observe(cfg, g, n, false, false, now) ==
              EvictOld(cfg, AddMissingRange(cfg, g1, g1.highest + 1, n, now, Wait(cfg, g1.late)).(highest := n))
  {
    hide AddMissingRange, EvictOld, Wait, AddOne;
  }

  /** Every other arrival: a first one, a recovery or a late one takes its own number off the list and nothing
      else; the next number in turn lets the old ones leave; and a keyframe after a gap supersedes all. */
  lemma NoGapNoted(cfg: Config, g: Gen, n: nat, isKeyframe: bool, isRecovered: bool, now: int)
    requires Inv(cfg, g)
    requires !(g.started && !isRecovered && !isKeyframe && n > g.highest + 1)
    ensures var r := Observe(cfg, g, n, isKeyframe, isRecovered, now);
            && r.needKeyframe == g.needKeyframe
            && (forall k :: k in r.missing.vals ==> k in g.missing.vals && r.missing.vals[k] == g.missing.vals[k])
            && r.missing.vals.Keys ==
                 if g.started && !isRecovered && n > g.highest + 1 then {}
                 else if g.started && !isRecovered && n > g.highest
                 then NoOlder(g.missing.vals.Keys, n - cfg.maxPacketAge)
                 else g.missing.vals.Keys - {n}
  {
    ReceivedFacts(cfg, g, n);
    var g1 := Received(g, n);
    EvictExact(g1.missing, n);
    hide Contains, Sorted, Ascending, AddOne, EvictOld, Wait, Waited, AddMissingRange, EvictBelow, AddKeyframe;
    if g.started && !isRecovered && n > g.highest {
      var g2 := if n > g.highest + 1 then g1.(missing := EvictBelow(g1.missing, n)) else g1;
      assert n > g.highest + 1 ==> g2.missing.vals.Keys == {};
      var g3 := NoteKeyframe(g2.(highest := n), n, isKeyframe);
      hide Ordered;
      Aged(cfg, g3);
      assert Observe(cfg, g, n, isKeyframe, isRecovered, now) == EvictOld(cfg, g3);
    }
  }

  /** What else an arrival changes. */
  lemma ArrivalRest(cfg: Config, g: Gen, n: nat, isKeyframe: bool, isRecovered: bool, now: int)
    requires Inv(cfg, g)
    ensures var r := Observe(cfg, g, n, isKeyframe, isRecovered, now);
            var raised := !g.started || (!isRecovered && n > g.highest);
            var cutoff := if g.started && raised then n - cfg.maxPacketAge else 0;
            && r.started && r.highest == (if raised then n else g.highest) && r.rttMs == g.rttMs
            && (forall y :: Contains(r.received, y) <==>
                  (y == n || Contains(g.received, y)) && (y >= cutoff || cutoff <= 0))
            && (forall f :: f in r.keyframes <==>
                  (f in g.keyframes || (isKeyframe && f == n)) && (f >= cutoff || cutoff <= 0))
  {
    ReceivedFacts(cfg, g, n);
    var g1 := Received(g, n);
    AddKeyframeExact(g1.keyframes, n);
    var kept := NoteKeyframe(g1, n, isKeyframe);
    if g.started && !isRecovered && n > g.highest {
      RaisedRest(cfg, g, n, isKeyframe, now);
      hide Contains, Sorted, Ordered, AddOne, EvictOld, Observe;
      AgedRest(cfg, kept.(highest := n));
    } else {
      hide Contains, Sorted, Ordered, AddOne, EvictOld, AddMissingRange, Wait, Waited, EvictBelow, AddKeyframe;
    }
  }

  /** A new highest number ages received and keyframes as if nothing were missing. */
  lemma RaisedRest(cfg: Config, g: Gen, n: nat, isKeyframe: bool, now: int)
    requires g.started && n > g.highest
    ensures var r := Observe(cfg, g, n, isKeyframe, false, now);
            var aged := EvictOld(cfg, NoteKeyframe(Received(g, n), n, isKeyframe).(highest := n));
            && r.started && r.highest == n && r.rttMs == g.rttMs
            && r.received == aged.received && r.keyframes == aged.keyframes
  {
    hide AddOne, Insert, CountNew, EvictBelow, Wait, Clip, DropBelow, AddKeyframe;
  }

  lemma AgedRest(cfg: Config, g: Gen)
    requires Sorted(g.received) && Ascending(g.keyframes) && g.highest >= 0
    ensures var r := EvictOld(cfg, g);
            var cutoff := g.highest - cfg.maxPacketAge;
            && (forall y :: Contains(r.received, y) <==> Contains(g.received, y) && (y >= cutoff || cutoff <= 0))
            && (forall f :: f in r.keyframes <==> f in g.keyframes && (f >= cutoff || cutoff <= 0))
  {
    var cutoff := g.highest - cfg.maxPacketAge;
    DropBelowExact(g.keyframes, cutoff);
    hide Contains, Sorted, Ascending, Clip, DropBelow, EvictBelow;
    forall y ensures Contains(Clip(g.received, cutoff), y) <==> Contains(g.received, y) && y >= cutoff {
      ClipExact(g.received, cutoff, y);
    }
  }

  // ------------------------------------------------------------------
  // What a feedback lists
  // ------------------------------------------------------------------

  /** Never requested, and past the delay and the wait; or requested, a round trip ago, and with a retry left. */
  ghost predicate Listable(cfg: Config, info: Info, now: int, rtt: int, highest: int) {
    if info.sentAt == 0 then now - info.createdAt >= cfg.sendNackDelayMs && highest >= info.sendAtSeq
    else now - info.sentAt >= rtt && info.retries < cfg.maxNackRetries
  }

  /** Requested a round trip ago, with no retry left. */
  ghost predicate GivenUp(cfg: Config, info: Info, now: int, rtt: int) {
    info.sentAt != 0 && now - info.sentAt >= rtt && info.retries >= cfg.maxNackRetries
  }

  function Listed(info: Info, now: int): Info {
    Info(info.createdAt, now, if info.sentAt == 0 then 1 else info.retries + 1, info.sendAtSeq)
  }

  /** The sweep decides each number by its own entry. */
  ghost predicate SweptAt(cfg: Config, keys: seq<int>, vals: map<int, Info>, now: int, rtt: int, highest: int,
                          s: Swept, n: int)
  {
    && (n in s.out <==> n in keys && n in vals && Listable(cfg, vals[n], now, rtt, highest))
    && (n in s.drops <==> n in keys && n in vals && GivenUp(cfg, vals[n], now, rtt))
    && (n in s.vals <==> n in vals)
    && (n in s.vals ==> s.vals[n] == if n in s.out then Listed(vals[n], now) else vals[n])
  }

  lemma {:induction false} SweepAt(cfg: Config, keys: seq<int>, vals: map<int, Info>, now: int, rtt: int, highest: int,
                                   n: int)
    requires Ascending(keys) && forall i :: 0 <= i < |keys| ==> keys[i] in vals
    ensures SweptAt(cfg, keys, vals, now, rtt, highest, Sweep(cfg, keys, vals, now, rtt, highest), n)
    decreases |keys|
  {
    if keys != [] {
      var k, rest := keys[0], keys[1..];
      assert k !in rest;
      assert n in keys <==> n == k || n in rest;
      match Decide(cfg, vals[k], now, rtt, highest)
      case Hold => SweepAt(cfg, rest, vals, now, rtt, highest, n);
      case Drop =>
        SweepAt(cfg, rest, vals, now, rtt, highest, n);
        var s := Sweep(cfg, rest, vals, now, rtt, highest);
        assert n in [k] + s.drops <==> n == k || n in s.drops;
      case Send(info) =>
        SweepAt(cfg, rest, vals[k := info], now, rtt, highest, n);
        var s := Sweep(cfg, rest, vals[k := info], now, rtt, highest);
        assert n in [k] + s.out <==> n == k || n in s.out;
    }
  }

  /** A feedback lists exactly the missing numbers inside the window that are listable, marks them, drops exactly
      those it has given up, and leaves every other entry alone. */
  ghost predicate FedBack(cfg: Config, g: Gen, now: int, r: Reply, n: int) {
    var held := n in g.missing.vals && n >= g.highest - cfg.maxPacketAge;
    && (n in r.out <==> held && Listable(cfg, g.missing.vals[n], now, g.rttMs, g.highest))
    && (n in r.g.missing.vals <==> held && !GivenUp(cfg, g.missing.vals[n], now, g.rttMs))
    && (n in r.g.missing.vals ==>
          r.g.missing.vals[n] == if n in r.out then Listed(g.missing.vals[n], now) else g.missing.vals[n])
  }

  lemma FeedbackRight(cfg: Config, g: Gen, now: int, n: int)
    requires Inv(cfg, g)
    ensures FedBack(cfg, g, now, Feedback(cfg, g, now), n)
    ensures var r := Feedback(cfg, g, now);
            r.g.highest == g.highest && r.g.rttMs == g.rttMs && r.g.late == g.late && r.g.started == g.started
  {
    FeedbackShape(cfg, g, now);
    EvictOldKeeps(cfg, g);
    MissingAged(cfg, g);
    SweptOrdered(cfg, EvictOld(cfg, g), now);
    FeedbackAt(cfg, EvictOld(cfg, g), now, n);
    FeedbackParts(cfg, g, now);
    hide Feedback, EvictOld, Contains, Sorted, Sweep, DeleteAll, Ordered, Listable, GivenUp;
  }

  lemma MissingAged(cfg: Config, g: Gen)
    requires Inv(cfg, g)
    ensures Ordered(g.missing)
    ensures EvictOld(cfg, g).missing.vals.Keys == NoOlder(g.missing.vals.Keys, g.highest - cfg.maxPacketAge)
    ensures forall k :: k in EvictOld(cfg, g).missing.vals ==> EvictOld(cfg, g).missing.vals[k] == g.missing.vals[k]
  {
    hide Contains, Sorted;
    Aged(cfg, g);
  }

  ghost function SweptOnce(cfg: Config, e: Gen, now: int): Swept
    requires forall i :: 0 <= i < |e.missing.keys| ==> e.missing.keys[i] in e.missing.vals
  {
    Sweep(cfg, e.missing.keys, e.missing.vals, now, e.rttMs, e.highest)
  }

  lemma FeedbackParts(cfg: Config, g: Gen, now: int)
    requires Inv(cfg, g)
    ensures var e := EvictOld(cfg, g);
            && (forall i :: 0 <= i < |e.missing.keys| ==> e.missing.keys[i] in e.missing.vals)
            && Feedback(cfg, g, now).out == SweptOnce(cfg, e, now).out
            && Feedback(cfg, g, now).g.missing ==
                 DeleteAll(Map(e.missing.keys, SweptOnce(cfg, e, now).vals), SweptOnce(cfg, e, now).drops)
  {
    EvictOldOrdered(cfg, g);
    KeysHeld(EvictOld(cfg, g).missing);
  }

  lemma FeedbackAt(cfg: Config, e: Gen, now: int, n: int)
    requires Inv(cfg, e) && forall i :: 0 <= i < |e.missing.keys| ==> e.missing.keys[i] in e.missing.vals
    requires Ordered(Map(e.missing.keys, SweptOnce(cfg, e, now).vals))
    ensures var s := SweptOnce(cfg, e, now);
            var m := DeleteAll(Map(e.missing.keys, s.vals), s.drops);
            && SweptAt(cfg, e.missing.keys, e.missing.vals, now, e.rttMs, e.highest, s, n)
            && (n in e.missing.keys <==> n in e.missing.vals)
            && (n in m.vals <==> n in s.vals && n !in s.drops) && (n in m.vals ==> m.vals[n] == s.vals[n])
  {
    SweepAt(cfg, e.missing.keys, e.missing.vals, now, e.rttMs, e.highest, n);
    var s := SweptOnce(cfg, e, now);
    DeleteAllFewer(Map(e.missing.keys, s.vals), s.drops);
    hide Contains, Sorted, DeleteAll, Sweep;
  }

  // ------------------------------------------------------------------
  // Runs
  // ------------------------------------------------------------------

  lemma SoundInv(cfg: Config, tr: Trace)
    requires Sound(cfg, tr)
    ensures Inv(cfg, tr.g) && tr.g.highest == HighestSeen(tr.log) && tr.g.late == LateSeen(cfg, tr.log)
  {
  }

  /** What counts as received did arrive. */
  ghost predicate AllArrived(tr: Trace) {
    forall y :: Contains(tr.g.received, y) ==> HasArrived(tr.log, y)
  }

  lemma {:induction false} ReceivedArrived(cfg: Config, rttMs: int, ops: seq<Op>)
    ensures AllArrived(Run(cfg, rttMs, ops))
    decreases |ops|
  {
    if ops != [] {
      hide Contains, HasArrived, Sound, Apply;
      var before, op := Run(cfg, rttMs, ops[..|ops| - 1]), ops[|ops| - 1];
      ReceivedArrived(cfg, rttMs, ops[..|ops| - 1]);
      SoundInv(cfg, before);
      ApplyArrived(cfg, before, op);
    }
  }

  lemma ApplyArrived(cfg: Config, tr: Trace, op: Op)
    requires Inv(cfg, tr.g) && AllArrived(tr)
    ensures AllArrived(Apply(cfg, tr, op))
  {
    match op
    case ObserveOp(n, isKeyframe, isRecovered, now) =>
      ArrivalRest(cfg, tr.g, n, isKeyframe, isRecovered, now);
      hide Contains, HasArrived, Observe, Inv;
      forall y ensures HasArrived(tr.log + [Arrived(n, isRecovered, now)], y) <==> HasArrived(tr.log, y) || y == n {
        AppendEvent(tr.log, Arrived(n, isRecovered, now), y);
      }
    case FeedbackOp(now) =>
      FeedbackShape(cfg, tr.g, now);
      AgedArrived(cfg, tr.g);
      hide Contains, HasArrived, Feedback, Inv, EvictOld, Marked;
      forall y | HasArrived(tr.log, y) ensures HasArrived(Apply(cfg, tr, op).log, y) {
        ArrivedStays(tr.log, Requests(Feedback(cfg, tr.g, now).out, now, tr.g.rttMs), y);
      }
    case RttOp(_) =>
    case AcknowledgeOp =>
  }

  lemma AgedArrived(cfg: Config, g: Gen)
    requires Inv(cfg, g)
    ensures forall y :: Contains(EvictOld(cfg, g).received, y) ==> Contains(g.received, y)
  {
    hide Contains, Ordered, Waited, Clip, EvictBelow, DropBelow;
    if g.highest >= 0 {
      AgedRest(cfg, g);
    }
  }

  lemma ArrivedStays(a: seq<Event>, b: seq<Event>, y: int)
    requires HasArrived(a, y)
    ensures HasArrived(a + b, y)
  {
    var i :| 0 <= i < |a| && IsArrivalOf(a[i], y);
    assert (a + b)[i] == a[i];
  }

  /** A call that takes `k` off the list neither by its arrival, nor by age, nor by a keyframe, nor by overflow. */
  ghost predicate Spares(cfg: Config, g: Gen, op: Op, k: int) {
    op.ObserveOp? ==>
      && op.num != k
      && (!op.isRecovered && op.num > g.highest ==> k >= op.num - cfg.maxPacketAge)
      && (!op.isRecovered && op.num > g.highest + 1 ==>
            !op.isKeyframe && k in LeftMissing(cfg, g.missing.vals.Keys, g.keyframes, GapBefore(g, op.num)))
  }

  /** `k` is missing, never requested, with this date and wait, and inside the window. */
  ghost predicate Waiting(cfg: Config, g: Gen, k: int, createdAt: int, sendAtSeq: int) {
    && k in g.missing.vals && g.missing.vals[k] == Info(createdAt, 0, 0, sendAtSeq)
    && k >= g.highest - cfg.maxPacketAge
  }

  lemma StillWaiting(cfg: Config, tr: Trace, op: Op, k: int, createdAt: int, sendAtSeq: int)
    requires Inv(cfg, tr.g) && Waiting(cfg, tr.g, k, createdAt, sendAtSeq) && Spares(cfg, tr.g, op, k)
    requires NackCount(Apply(cfg, tr, op).log, k) == 0
    ensures Waiting(cfg, Apply(cfg, tr, op).g, k, createdAt, sendAtSeq)
  {
    match op
    case ObserveOp(_, _, _, _) => WaitsThrough(cfg, tr.g, op, k, createdAt, sendAtSeq);
    case FeedbackOp(now) =>
      FeedbackRight(cfg, tr.g, now, k);
      InvParts(cfg, tr.g);
      hide Inv, Feedback, Requests, NackCount;
      RequestsCount(tr.log, Feedback(cfg, tr.g, now).out, now, tr.g.rttMs, k);
    case RttOp(_) =>
    case AcknowledgeOp =>
  }

  lemma WaitsThrough(cfg: Config, g: Gen, op: Op, k: int, createdAt: int, sendAtSeq: int)
    requires Inv(cfg, g) && op.ObserveOp? && Waiting(cfg, g, k, createdAt, sendAtSeq) && Spares(cfg, g, op, k)
    ensures Waiting(cfg, Observe(cfg, g, op.num, op.isKeyframe, op.isRecovered, op.now), k, createdAt, sendAtSeq)
  {
    ArrivalRest(cfg, g, op.num, op.isKeyframe, op.isRecovered, op.now);
    assert g.started;
    hide Inv, Observe, LeftMissing, GivesUp, GapBefore, Contains;
    if !op.isRecovered && !op.isKeyframe && op.num > g.highest + 1 {
      GapNoted(cfg, g, op.num, op.now);
    } else {
      NoGapNoted(cfg, g, op.num, op.isKeyframe, op.isRecovered, op.now);
    }
  }

  lemma RequestsStep(log: seq<Event>, out: seq<int>, now: int, rtt: int)
    requires out != []
    ensures log + Requests(out, now, rtt) == (log + [Nacked(out[0], now, rtt)]) + Requests(out[1..], now, rtt)
  {
    var e, rest := Nacked(out[0], now, rtt), Requests(out[1..], now, rtt);
    assert Requests(out, now, rtt) == [e] + rest;
    assert log + ([e] + rest) == (log + [e]) + rest;
  }

  /** The listed numbers gain a request, and none loses one. */
  lemma {:induction false} RequestsCount(log: seq<Event>, out: seq<int>, now: int, rtt: int, k: int)
    ensures NackCount(log + Requests(out, now, rtt), k) >= NackCount(log, k) + if k in out then 1 else 0
    decreases |out|
  {
    hide NackCount;
    if out == [] {
      assert log + [] == log;
    } else {
      RequestsStep(log, out, now, rtt);
      hide Requests;
      AppendEvent(log, Nacked(out[0], now, rtt), k);
      RequestsCount(log + [Nacked(out[0], now, rtt)], out[1..], now, rtt, k);
    }
  }

  /** The same calls, and then this one. */
  lemma RunStep(cfg: Config, rttMs: int, ops: seq<Op>, op: Op)
    ensures Inv(cfg, Run(cfg, rttMs, ops).g)
    ensures Run(cfg, rttMs, ops + [op]) == Apply(cfg, Run(cfg, rttMs, ops), op)
  {
    assert (ops + [op])[..|ops|] == ops;
    SoundInv(cfg, Run(cfg, rttMs, ops));
  }

  /** The log only grows, and with it the number of requests. */
  lemma ApplyCounts(cfg: Config, tr: Trace, op: Op, k: int)
    requires Inv(cfg, tr.g)
    ensures NackCount(Apply(cfg, tr, op).log, k) >= NackCount(tr.log, k)
  {
    match op
    case ObserveOp(n, isKeyframe, isRecovered, now) => AppendEvent(tr.log, Arrived(n, isRecovered, now), k);
    case FeedbackOp(now) =>
      InvParts(cfg, tr.g);
      RequestsCount(tr.log, Feedback(cfg, tr.g, now).out, now, tr.g.rttMs, k);
    case RttOp(_) =>
    case AcknowledgeOp =>
  }

  /** While the calls spare `k` and none requests it, it keeps waiting as it was noted. */
  lemma {:induction false} KeepsWaiting(cfg: Config, rttMs: int, pre: seq<Op>, mid: seq<Op>, k: int, createdAt: int,
                                        sendAtSeq: int)
    requires Waiting(cfg, Run(cfg, rttMs, pre).g, k, createdAt, sendAtSeq)
    requires forall i :: 0 <= i < |mid| ==> Spares(cfg, Run(cfg, rttMs, pre + mid[..i]).g, mid[i], k)
    requires NackCount(Run(cfg, rttMs, pre + mid).log, k) == 0
    ensures Waiting(cfg, Run(cfg, rttMs, pre + mid).g, k, createdAt, sendAtSeq)
    decreases |mid|
  {
    hide Waiting, Spares, Run, Apply, Inv, NackCount;
    if mid == [] {
      assert pre + mid == pre;
    } else {
      var init, op := mid[..|mid| - 1], mid[|mid| - 1];
      assert pre + mid == (pre + init) + [op];
      RunStep(cfg, rttMs, pre + init, op);
      var tr := Run(cfg, rttMs, pre + init);
      ApplyCounts(cfg, tr, op, k);
      forall i | 0 <= i < |init| ensures Spares(cfg, Run(cfg, rttMs, pre + init[..i]).g, init[i], k) {
        assert init[..i] == mid[..i];
      }
      KeepsWaiting(cfg, rttMs, pre, init, k, createdAt, sendAtSeq);
      assert Spares(cfg, Run(cfg, rttMs, pre + mid[..|init|]).g, mid[|init|], k);
      StillWaiting(cfg, tr, op, k, createdAt, sendAtSeq);
    }
  }

  /** The call that found `k` missing: a direct packet `n`, no keyframe, past it; `k` had not arrived and is inside
      the window, and the gap was not too much. */
  ghost predicate Finds(cfg: Config, tr: Trace, op: Op, k: int) {
    && op.ObserveOp? && !op.isKeyframe && !op.isRecovered
    && 0 <= HighestSeen(tr.log) < k < op.num && !HasArrived(tr.log, k) && k >= op.num - cfg.maxPacketAge
    && !GivesUp(cfg, tr.g.missing.vals.Keys, tr.g.keyframes, GapBefore(tr.g, op.num))
  }

  lemma GapLeft(cfg: Config, missing: set<int>, keyframes: seq<int>, gap: set<int>, k: int)
    requires !GivesUp(cfg, missing, keyframes, gap) && k in gap
    ensures k in LeftMissing(cfg, missing, keyframes, gap)
  {
    hide Fits, NotSuperseded;
  }

  lemma InGap(cfg: Config, tr: Trace, op: Op, k: int)
    requires Sound(cfg, tr) && AllArrived(tr) && Finds(cfg, tr, op, k)
    ensures Inv(cfg, tr.g) && tr.g.started && tr.g.highest < k < op.num
    ensures k in GapBefore(tr.g, op.num) && k !in tr.g.missing.vals
  {
    hide Contains, HasArrived, Wait, LateSeen, HighestSeen, Ordered, Waited, Sorted, GivesUp;
  }

  lemma FoundWaiting(cfg: Config, tr: Trace, op: Op, k: int)
    requires Sound(cfg, tr) && AllArrived(tr) && Finds(cfg, tr, op, k)
    ensures Inv(cfg, tr.g) && op.ObserveOp?
    ensures Waiting(cfg, Apply(cfg, tr, op).g, k, op.now, k + Wait(cfg, LateSeen(cfg, tr.log)))
  {
    hide Contains, HasArrived, Observe, Wait, LateSeen, HighestSeen, GivesUp, LeftMissing, GapBefore, AllArrived, Inv;
    SoundInv(cfg, tr);
    InGap(cfg, tr, op, k);
    hide Sound;
    GapNoted(cfg, tr.g, op.num, op.now);
    GapLeft(cfg, tr.g.missing.vals.Keys, tr.g.keyframes, GapBefore(tr.g, op.num), k);
  }

  /** A missing number is requested: found by a call, spared by those that follow and not requested by them, it is
      listed by the next feedback at which the delay has passed since it was found and the highest number lies past
      it by the median of the late distances known when it was found. */
  lemma ListedWhenDue(cfg: Config, rttMs: int, pre: seq<Op>, find: Op, mid: seq<Op>, now: int, k: int)
    requires Finds(cfg, Run(cfg, rttMs, pre), find, k)
    requires forall i :: 0 <= i < |mid| ==> Spares(cfg, Run(cfg, rttMs, pre + [find] + mid[..i]).g, mid[i], k)
    requires var late := LateSeen(cfg, Run(cfg, rttMs, pre).log);
             var log := Run(cfg, rttMs, pre + [find] + mid).log;
             && NackCount(log, k) == 0 && now - find.now >= cfg.sendNackDelayMs
             && HighestSeen(log) >= k + Wait(cfg, late)
    ensures var tr := Run(cfg, rttMs, pre + [find] + mid);
            && Inv(cfg, tr.g) && Ordered(tr.g.missing) && k in Feedback(cfg, tr.g, now).out
            && NackCount(Run(cfg, rttMs, pre + [find] + mid + [FeedbackOp(now)]).log, k) > 0
  {
    hide Run, Sound, Finds, Spares, Wait, LateSeen, HighestSeen, NackCount, Apply;
    var tr0, tr := Run(cfg, rttMs, pre), Run(cfg, rttMs, pre + [find] + mid);
    RunStep(cfg, rttMs, pre, find);
    ReceivedArrived(cfg, rttMs, pre);
    FoundWaiting(cfg, tr0, find, k);
    KeepsWaiting(cfg, rttMs, pre + [find], mid, k, find.now, k + Wait(cfg, LateSeen(cfg, tr0.log)));
    RunStep(cfg, rttMs, pre + [find] + mid, FeedbackOp(now));
    SoundInv(cfg, tr);
    InvParts(cfg, tr.g);
    hide Inv, Ordered;
    FeedbackRight(cfg, tr.g, now, k);
    FeedbackCounts(cfg, tr, now, k);
  }

  lemma FeedbackCounts(cfg: Config, tr: Trace, now: int, k: int)
    requires Inv(cfg, tr.g) && Ordered(tr.g.missing) && k in Feedback(cfg, tr.g, now).out
    ensures NackCount(Apply(cfg, tr, FeedbackOp(now)).log, k) > 0
  {
    RequestsCount(tr.log, Feedback(cfg, tr.g, now).out, now, tr.g.rttMs, k);
  }
}
