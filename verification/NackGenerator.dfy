/**
 Gap detection and NACK pacing of src/retransmit.js.

 `Observe` and `Feedback` are the transitions of a NackGenerator on extended sequence numbers. A log of
 what arrived and what was requested, with the time and the round-trip time of each request, carries the
 properties of whole runs.
 */
module NackModel {
  import opened HistogramModel
  import opened JsMap
  import opened Ranges
  import opened SeqNum

  datatype Info = Info(createdAt: int, sentAt: int, retries: nat, sendAtSeq: int)

  datatype Config = Config(
    maxPacketAge: nat,
    maxNackEntries: nat,
    maxNackRetries: nat,
    sendNackDelayMs: int,
    reorderBuckets: Positive,
    reorderValues: Positive)

  type Missing = Map<int, Info>

  datatype Gen = Gen(
    received: seq<int>,    // flat ranges
    missing: Missing,
    keyframes: seq<int>,
    highest: int,          // -1 before the first packet
    started: bool,
    needKeyframe: bool,
    rttMs: int,
    late: seq<nat>)        // how far behind each late packet came

  function Initial(rttMs: int): Gen {
    Gen([], Map([], map[]), [], -1, false, false, rttMs, [])
  }

  // ------------------------------------------------------------------
  // Eviction
  // ------------------------------------------------------------------

  ghost predicate Ascending(keys: seq<int>) {
    forall i, j :: 0 <= i < j < |keys| ==> keys[i] < keys[j]
  }

  ghost predicate Ordered(m: Missing) {
    m.Valid() && Ascending(m.keys)
  }

  /** Deletes from the front and stops at the first key that stays. */
  function EvictBelow(m: Missing, cutoff: int): Missing
    decreases |m.keys|
  {
    if m.keys == [] || m.keys[0] >= cutoff then m
    else
      DeleteFirstShorter(m);
      EvictBelow(m.Delete(m.keys[0]), cutoff)
  }

  lemma DeleteFirstShorter(m: Missing)
    requires m.keys != []
    ensures |m.Delete(m.keys[0]).keys| < |m.keys|
  {
    WithoutShorter(m.keys, m.keys[0]);
  }

  lemma {:induction false} WithoutAscending(keys: seq<int>, k: int)
    requires Ascending(keys)
    ensures Ascending(Without(keys, k)) && forall i :: 0 <= i < |Without(keys, k)| ==> Without(keys, k)[i] in keys
  {
    if keys != [] {
      if keys[0] == k {
        WithoutAbsent(keys[1..], k);
      } else {
        var rest := Without(keys[1..], k);
        WithoutAscending(keys[1..], k);
        forall i | 0 <= i < |rest| ensures keys[0] < rest[i] {
          assert rest[i] in keys[1..];
        }
      }
    }
  }

  lemma DeleteOrdered(m: Missing, k: int)
    requires Ordered(m)
    ensures Ordered(m.Delete(k)) && m.Delete(k).vals == m.vals - {k} && |m.Delete(k).keys| <= |m.keys|
  {
    m.DeleteValid(k);
    WithoutAscending(m.keys, k);
    WithoutShorter(m.keys, k);
  }

  /** Because the keys ascend, deleting the prefix deletes exactly the entries below the cutoff. */
  lemma {:induction false} EvictExact(m: Missing, cutoff: int)
    requires Ordered(m)
    ensures var r := EvictBelow(m, cutoff);
            && Ordered(r) && |r.keys| <= |m.keys|
            && r.vals == map k | k in m.vals && k >= cutoff :: m.vals[k]
    decreases |m.keys|
  {
    if m.keys == [] || m.keys[0] >= cutoff {
      forall k | k in m.vals ensures k >= cutoff {
        assert k in m.keys;
      }
      assert m.vals == map k | k in m.vals && k >= cutoff :: m.vals[k];
    } else {
      var k0 := m.keys[0];
      DeleteFirstShorter(m);
      DeleteOrdered(m, k0);
      var d := m.Delete(k0);
      EvictExact(d, cutoff);
      assert (map k | k in d.vals && k >= cutoff :: d.vals[k]) == (map k | k in m.vals && k >= cutoff :: m.vals[k]);
    }
  }

  function DropBelow(keyframes: seq<int>, cutoff: int): seq<int> {
    if keyframes == [] || keyframes[0] >= cutoff then keyframes else DropBelow(keyframes[1..], cutoff)
  }

  lemma {:induction false} DropBelowExact(keyframes: seq<int>, cutoff: int)
    requires Ascending(keyframes)
    ensures Ascending(DropBelow(keyframes, cutoff))
    ensures forall x :: x in DropBelow(keyframes, cutoff) <==> x in keyframes && x >= cutoff
  {
    if keyframes != [] && keyframes[0] < cutoff {
      DropBelowExact(keyframes[1..], cutoff);
      assert forall x :: x in keyframes <==> x == keyframes[0] || x in keyframes[1..];
    }
  }

  function EvictOld(cfg: Config, g: Gen): Gen {
    var cutoff := g.highest - cfg.maxPacketAge;
    if g.highest < 0 || cutoff <= 0 then g
    else g.(received := Clip(g.received, cutoff),
            keyframes := DropBelow(g.keyframes, cutoff),
            missing := EvictBelow(g.missing, cutoff))
  }

  // ------------------------------------------------------------------
  // Arrival
  // ------------------------------------------------------------------

  /** Keyframe numbers, ascending without repetition. */
  function AddKeyframe(keyframes: seq<int>, n: int): seq<int> {
    if keyframes == [] || n < keyframes[0] then [n] + keyframes
    else if n == keyframes[0] then keyframes
    else [keyframes[0]] + AddKeyframe(keyframes[1..], n)
  }

  lemma {:induction false} AddKeyframeExact(keyframes: seq<int>, n: int)
    requires Ascending(keyframes)
    ensures Ascending(AddKeyframe(keyframes, n))
    ensures forall x :: x in AddKeyframe(keyframes, n) <==> x == n || x in keyframes
  {
    if keyframes != [] && n > keyframes[0] {
      var rest := AddKeyframe(keyframes[1..], n);
      AddKeyframeExact(keyframes[1..], n);
      assert forall x :: x in keyframes <==> x == keyframes[0] || x in keyframes[1..];
      forall i | 0 <= i < |rest| ensures keyframes[0] < rest[i] {
        assert rest[i] in rest;
      }
    }
  }

  function CountNew(received: seq<int>, start: int, end: int): nat
    decreases end - start
  {
    if start >= end then 0
    else (if Contains(received, start) then 0 else 1) + CountNew(received, start + 1, end)
  }

  function Insert(m: Missing, received: seq<int>, start: int, end: int, now: int, wait: int): Missing
    decreases end - start
  {
    if start >= end then m
    else if Contains(received, start) then Insert(m, received, start + 1, end, now, wait)
    else Insert(m.Set(start, Info(now, 0, 0, start + wait)), received, start + 1, end, now, wait)
  }

  /** A gap: its numbers go missing, unless that is too many even without those before the last keyframe. */
  function AddMissingRange(cfg: Config, g: Gen, start: int, end: int, now: int, wait: int): Gen {
    var newCount := CountNew(g.received, start, end);
    var room :=
      if |g.missing.keys| + newCount > cfg.maxNackEntries && g.keyframes != []
      then EvictBelow(g.missing, g.keyframes[|g.keyframes| - 1]) else g.missing;
    if |room.keys| + newCount > cfg.maxNackEntries then
      g.(missing := Map([], map[]), needKeyframe := true)
    else
      g.(missing := Insert(room, g.received, start, end, now, wait))
  }

  function NoteKeyframe(g: Gen, n: int, isKeyframe: bool): Gen {
    if isKeyframe then g.(keyframes := AddKeyframe(g.keyframes, n)) else g
  }

  /** The median of the latest reordering distances, 0 while nothing came late. */
  function Wait(cfg: Config, late: seq<nat>): nat {
    Quantile(Latest(late, cfg.reorderValues), 0.5, cfg.reorderBuckets)
  }

  function NoteLate(cfg: Config, g: Gen, n: int): Gen {
    if n < g.highest then g.(late := g.late + [Clamp(g.highest - n, cfg.reorderBuckets)]) else g
  }

  lemma {:induction false} HalfTimes(n: nat)
    ensures 2.0 * Times(0.5, n) == n as real
  {
    if n > 0 {
      HalfTimes(n - 1);
    }
  }

  /** Half of the latest distances, at least, are below the wait, and fewer are below any smaller one. */
  lemma WaitIsMedian(cfg: Config, late: seq<nat>)
    requires forall i :: 0 <= i < |late| ==> late[i] < cfg.reorderBuckets
    ensures var wait, n := Wait(cfg, late), if |late| < cfg.reorderValues then |late| else cfg.reorderValues;
            var last := late[|late| - n..];
            && (late == [] ==> wait == 0)
            && (late != [] ==>
                  && 2 * CountLess(last, wait) >= n && wait <= cfg.reorderBuckets
                  && forall w :: 0 <= w < wait ==> 2 * CountLess(last, w) < n)
  {
    var n := if |late| < cfg.reorderValues then |late| else cfg.reorderValues;
    var last := late[|late| - n..];
    assert Latest(late, cfg.reorderValues) == last;
    if late != [] {
      QuantileExact(last, 0.5, cfg.reorderBuckets);
      HalfTimes(n);
      hide CountLess, Quantile, Times;
      forall w | 0 <= w < Wait(cfg, late) ensures 2 * CountLess(last, w) < n {
        assert !Reached(last, 0.5, w);
      }
    }
  }

  function Observe(cfg: Config, g0: Gen, n: nat, isKeyframe: bool, isRecovered: bool, now: int): Gen {
    var g := g0.(received := AddOne(g0.received, n), missing := g0.missing.Delete(n));
    Placed(cfg, g, n, isKeyframe, isRecovered, now)
  }

  /** The rest of an arrival, once its number is among the received. */
  function Placed(cfg: Config, g: Gen, n: nat, isKeyframe: bool, isRecovered: bool, now: int): Gen {
    if !g.started then NoteKeyframe(g.(started := true, highest := n), n, isKeyframe)
    else if isRecovered then NoteKeyframe(g, n, isKeyframe)
    else if n <= g.highest then NoteKeyframe(NoteLate(cfg, g, n), n, isKeyframe)
    else
      var gap :=
        if n <= g.highest + 1 then g
        else if isKeyframe then g.(missing := EvictBelow(g.missing, n))
        else AddMissingRange(cfg, g, g.highest + 1, n, now, Wait(cfg, g.late));
      EvictOld(cfg, NoteKeyframe(gap.(highest := n), n, isKeyframe))
  }

  // ------------------------------------------------------------------
  // Feedback
  // ------------------------------------------------------------------

  datatype Decision = Hold | Send(info: Info) | Drop

  function Decide(cfg: Config, info: Info, now: int, rtt: int, highest: int): Decision {
    if info.sentAt == 0 then
      if now - info.createdAt < cfg.sendNackDelayMs || highest < info.sendAtSeq then Hold
      else Send(info.(sentAt := now, retries := 1))
    else if now - info.sentAt < rtt then Hold
    else if info.retries >= cfg.maxNackRetries then Drop
    else Send(info.(sentAt := now, retries := info.retries + 1))
  }

  datatype Swept = Swept(vals: map<int, Info>, out: seq<int>, drops: seq<int>)

  /** Visits the entries in order. */
  function Sweep(cfg: Config, keys: seq<int>, vals: map<int, Info>, now: int, rtt: int, highest: int): Swept
    requires forall i :: 0 <= i < |keys| ==> keys[i] in vals
  {
    if keys == [] then Swept(vals, [], [])
    else
      var k, rest := keys[0], keys[1..];
      match Decide(cfg, vals[k], now, rtt, highest)
      case Hold => Sweep(cfg, rest, vals, now, rtt, highest)
      case Send(info) =>
        var r := Sweep(cfg, rest, vals[k := info], now, rtt, highest);
        r.(out := [k] + r.out)
      case Drop =>
        var r := Sweep(cfg, rest, vals, now, rtt, highest);
        r.(drops := [k] + r.drops)
  }

  function DeleteAll(m: Missing, ks: seq<int>): Missing
    decreases |ks|
  {
    if ks == [] then m else DeleteAll(m.Delete(ks[0]), ks[1..])
  }

  datatype Reply = Reply(g: Gen, out: seq<int>)

  function Feedback(cfg: Config, g0: Gen, now: int): Reply
    requires Ordered(g0.missing)
  {
    var g := EvictOld(cfg, g0);
    EvictOldOrdered(cfg, g0);
    var s := Sweep(cfg, g.missing.keys, g.missing.vals, now, g.rttMs, g.highest);
    Reply(g.(missing := DeleteAll(Map(g.missing.keys, s.vals), s.drops)), s.out)
  }

  /** What the caller gets: 16-bit numbers. */
  function OnWire(out: seq<int>): seq<u16> {
    seq(|out|, i requires 0 <= i < |out| => Wrap(out[i]))
  }

  function UpdateRtt(g: Gen, rttMs: int): Gen {
    g.(rttMs := if rttMs > 20 then rttMs else 20)
  }

  lemma EvictOldOrdered(cfg: Config, g: Gen)
    requires Ordered(g.missing)
    ensures Ordered(EvictOld(cfg, g).missing)
  {
    EvictExact(g.missing, g.highest - cfg.maxPacketAge);
  }

  // ------------------------------------------------------------------
  // The invariant of every reachable state
  // ------------------------------------------------------------------

  ghost predicate Inv(cfg: Config, g: Gen) {
    && Ordered(g.missing) && Sorted(g.received) && Ascending(g.keyframes)
    && (forall k :: k in g.missing.vals ==> 0 <= k < g.highest && !Contains(g.received, k))
    && |g.missing.keys| <= cfg.maxNackEntries
    && -1 <= g.highest && (g.started <==> g.highest >= 0)
    && Waited(g.missing.vals, g.highest)
  }

  /** What was requested before had waited for the packets its number asks for. */
  ghost predicate Waited(vals: map<int, Info>, highest: int) {
    forall k :: k in vals && vals[k].sentAt != 0 ==> vals[k].sendAtSeq <= highest
  }

  /** Nothing older than the window is missing. */
  ghost predicate Recent(cfg: Config, g: Gen) {
    forall k :: k in g.missing.vals ==> k >= g.highest - cfg.maxPacketAge
  }

  lemma InvParts(cfg: Config, g: Gen)
    requires Inv(cfg, g)
    ensures Ordered(g.missing) && Sorted(g.received) && Ascending(g.keyframes)
  {
  }

  lemma KeysHeld(m: Missing)
    requires Ordered(m)
    ensures forall i :: 0 <= i < |m.keys| ==> m.keys[i] in m.vals
  {
    assert forall i :: 0 <= i < |m.keys| ==> m.keys[i] in m.keys;
  }

  lemma EvictOldKeeps(cfg: Config, g: Gen)
    requires Inv(cfg, g)
    ensures var r := EvictOld(cfg, g);
            && Inv(cfg, r) && Recent(cfg, r)
            && r == g.(received := r.received, keyframes := r.keyframes, missing := r.missing)
            && (forall k :: k in r.missing.vals ==> k in g.missing.vals && r.missing.vals[k] == g.missing.vals[k])
            && (forall n :: n > g.highest ==> (Contains(r.received, n) <==> Contains(g.received, n)))
  {
    var cutoff := g.highest - cfg.maxPacketAge;
    if g.highest >= 0 && cutoff > 0 {
      DropBelowExact(g.keyframes, cutoff);
      EvictExact(g.missing, cutoff);
      ClipExact(g.received, cutoff, 0);
      forall n ensures Contains(Clip(g.received, cutoff), n) <==> Contains(g.received, n) && n >= cutoff {
        ClipExact(g.received, cutoff, n);
      }
    }
  }

  lemma AppendOrdered(m: Missing, k: int, info: Info)
    requires Ordered(m) && forall j :: j in m.vals ==> j < k
    ensures Ordered(m.Set(k, info)) && m.Set(k, info).keys == m.keys + [k]
  {
    forall i | 0 <= i < |m.keys| ensures m.keys[i] < k {
      assert m.keys[i] in m.keys;
    }
    m.SetValid(k, info);
  }

  /** `r` is `m` with the numbers of the range that were not received, fresh and at the end. */
  ghost predicate Inserted(m: Missing, received: seq<int>, start: int, end: int, now: int, wait: int, r: Missing) {
    && Ordered(r)
    && |r.keys| == |m.keys| + CountNew(received, start, end)
    && (forall k :: k in r.vals <==> k in m.vals || (start <= k < end && !Contains(received, k)))
    && (forall k :: k in m.vals ==> k in r.vals && r.vals[k] == m.vals[k])
    && (forall k :: k in r.vals && k !in m.vals ==> r.vals[k] == Info(now, 0, 0, k + wait))
  }

  lemma InsertedStep(m: Missing, received: seq<int>, start: int, end: int, now: int, wait: int, r: Missing)
    requires start < end && start !in m.vals && !Contains(received, start)
    requires Inserted(m.Set(start, Info(now, 0, 0, start + wait)), received, start + 1, end, now, wait, r)
    ensures Inserted(m, received, start, end, now, wait, r)
  {
    hide Ordered, Contains;
    var m' := m.Set(start, Info(now, 0, 0, start + wait));
    assert forall k :: k in m.vals ==> k in m'.vals && m'.vals[k] == m.vals[k];
    assert start in m'.vals;
  }

  lemma {:induction false} InsertExact(m: Missing, received: seq<int>, start: int, end: int, now: int, wait: int)
    requires Ordered(m) && forall k :: k in m.vals ==> k < start
    ensures Inserted(m, received, start, end, now, wait, Insert(m, received, start, end, now, wait))
    decreases end - start
  {
    if start < end {
      if Contains(received, start) {
        InsertExact(m, received, start + 1, end, now, wait);
      } else {
        var m' := m.Set(start, Info(now, 0, 0, start + wait));
        AppendOrdered(m, start, Info(now, 0, 0, start + wait));
        hide Ordered, Contains, Inserted;
        InsertExact(m', received, start + 1, end, now, wait);
        InsertedStep(m, received, start, end, now, wait, Insert(m', received, start + 1, end, now, wait));
      }
    }
  }

  // ------------------------------------------------------------------
  // The log of a run
  // ------------------------------------------------------------------

  datatype Event = Arrived(num: int, recovered: bool, time: int) | Nacked(num: int, time: int, rtt: int)

  ghost predicate IsArrivalOf(e: Event, n: int) {
    e.Arrived? && e.num == n
  }

  ghost predicate HasArrived(log: seq<Event>, n: int) {
    exists i :: 0 <= i < |log| && IsArrivalOf(log[i], n)
  }

  ghost predicate IsNackOf(e: Event, n: int) {
    e.Nacked? && e.num == n
  }

  ghost function NackCount(log: seq<Event>, n: int): nat {
    if log == [] then 0
    else NackCount(log[..|log| - 1], n) + if IsNackOf(log[|log| - 1], n) then 1 else 0
  }

  /** When `n` was last requested. */
  ghost function LastNack(log: seq<Event>, n: int): int {
    if log == [] then 0
    else if IsNackOf(log[|log| - 1], n) then log[|log| - 1].time
    else LastNack(log[..|log| - 1], n)
  }

  /** The highest number that arrived so far; recoveries do not raise it. */
  ghost function HighestSeen(log: seq<Event>): int {
    if log == [] then -1
    else
      var before, e := HighestSeen(log[..|log| - 1]), log[|log| - 1];
      if !e.Arrived? || (before >= 0 && (e.recovered || e.num <= before)) then before else e.num
  }

  /** How far behind the highest each packet came that was late, in order. */
  ghost function LateSeen(cfg: Config, log: seq<Event>): seq<nat> {
    if log == [] then []
    else
      var before, e := log[..|log| - 1], log[|log| - 1];
      var highest := HighestSeen(before);
      LateSeen(cfg, before)
      + if e.Arrived? && !e.recovered && highest >= 0 && e.num < highest
        then [if highest - e.num < cfg.reorderBuckets then highest - e.num else cfg.reorderBuckets - 1] else []
  }

  /** Event `i` is the arrival that showed `n` to be missing. */
  ghost predicate Reveals(log: seq<Event>, i: nat, n: int) {
    i < |log| && log[i].Arrived? && HighestSeen(log[..i]) < n < HighestSeen(log[..i + 1])
  }

  /** The arrival that revealed `n` lies at least the configured delay back, and since then the highest number
      has come as far past `n` as half of the late packets before that arrival were behind. */
  ghost predicate Due(cfg: Config, log: seq<Event>, n: int, now: int) {
    exists i :: 0 <= i < |log| && Reveals(log, i, n) && now - log[i].time >= cfg.sendNackDelayMs
      && HighestSeen(log) >= n + Wait(cfg, LateSeen(cfg, log[..i]))
  }

  /** A request is for a number that has not arrived; the first one for a number is due. */
  ghost predicate Proper(cfg: Config, before: seq<Event>, e: Event) {
    e.Nacked? ==>
      && !HasArrived(before, e.num)
      && (NackCount(before, e.num) == 0 ==> Due(cfg, before, e.num, e.time))
  }

  ghost predicate AllProper(cfg: Config, log: seq<Event>) {
    forall i :: 0 <= i < |log| ==> Proper(cfg, log[..i], log[i])
  }

  /** A request comes no sooner than one round trip after the last request for its number. */
  ghost predicate Paced(before: seq<Event>, e: Event) {
    e.Nacked? && NackCount(before, e.num) > 0 ==> e.time - LastNack(before, e.num) >= e.rtt
  }

  ghost predicate AllPaced(log: seq<Event>) {
    forall i :: 0 <= i < |log| ==> Paced(log[..i], log[i])
  }

  ghost function Limit(cfg: Config): nat {
    if cfg.maxNackRetries > 1 then cfg.maxNackRetries else 1
  }

  lemma AppendEvent(log: seq<Event>, e: Event, n: int)
    ensures NackCount(log + [e], n) == NackCount(log, n) + if IsNackOf(e, n) then 1 else 0
    ensures LastNack(log + [e], n) == if IsNackOf(e, n) then e.time else LastNack(log, n)
    ensures HasArrived(log + [e], n) <==> HasArrived(log, n) || IsArrivalOf(e, n)
  {
    var longer := log + [e];
    assert longer[..|log|] == log;
    assert forall i :: 0 <= i < |log| ==> longer[i] == log[i];
    assert longer[|log|] == e;
  }

  lemma AppendProper(cfg: Config, log: seq<Event>, e: Event)
    ensures AllProper(cfg, log) && Proper(cfg, log, e) ==> AllProper(cfg, log + [e])
    ensures AllPaced(log) && Paced(log, e) ==> AllPaced(log + [e])
  {
    hide Proper, Paced;
    var longer := log + [e];
    assert longer[..|log|] == log;
    assert forall i :: 0 <= i < |log| ==> longer[..i] == log[..i] && longer[i] == log[i];
  }

  /** What an arrival or a request does to the two summaries of the log. */
  lemma AppendSeen(cfg: Config, log: seq<Event>, e: Event)
    ensures e.Nacked? ==> HighestSeen(log + [e]) == HighestSeen(log) && LateSeen(cfg, log + [e]) == LateSeen(cfg, log)
    ensures e.Arrived? ==>
      HighestSeen(log + [e]) ==
        if HighestSeen(log) >= 0 && (e.recovered || e.num <= HighestSeen(log)) then HighestSeen(log) else e.num
    ensures e.Arrived? ==>
      LateSeen(cfg, log + [e]) == LateSeen(cfg, log) +
        if !e.recovered && HighestSeen(log) >= 0 && e.num < HighestSeen(log)
        then [Clamp(HighestSeen(log) - e.num, cfg.reorderBuckets)] else []
  {
    assert (log + [e])[..|log|] == log;
  }

  lemma RevealsStays(log: seq<Event>, e: Event, i: nat, n: int)
    requires Reveals(log, i, n)
    ensures Reveals(log + [e], i, n) && (log + [e])[..i] == log[..i] && (log + [e])[i] == log[i]
  {
    assert (log + [e])[..i] == log[..i] && (log + [e])[..i + 1] == log[..i + 1];
  }

  /** The entry dates from the arrival that revealed the number, and waits for the median of that moment. */
  ghost predicate Dated(cfg: Config, log: seq<Event>, n: int, info: Info) {
    exists i :: 0 <= i < |log| && Reveals(log, i, n) && info.createdAt == log[i].time
      && info.sendAtSeq == n + Wait(cfg, LateSeen(cfg, log[..i]))
  }

  lemma DatedStays(cfg: Config, log: seq<Event>, e: Event, n: int, info: Info)
    requires Dated(cfg, log, n, info)
    ensures Dated(cfg, log + [e], n, info)
  {
    hide Reveals, Wait, LateSeen;
    var i :| 0 <= i < |log| && Reveals(log, i, n) && info.createdAt == log[i].time
      && info.sendAtSeq == n + Wait(cfg, LateSeen(cfg, log[..i]));
    RevealsStays(log, e, i, n);
    assert Reveals(log + [e], i, n);
  }

  /** The entry of a missing number: not arrived, dated, and marked as requested only when it was. */
  ghost predicate Entered(cfg: Config, log: seq<Event>, n: int, info: Info) {
    !HasArrived(log, n) && Dated(cfg, log, n, info) && (info.sentAt != 0 ==> NackCount(log, n) > 0)
  }

  /** The entry knows how often and when its number was last requested. */
  ghost predicate Tallied(cfg: Config, log: seq<Event>, n: int, info: Info) {
    && info.retries == NackCount(log, n) <= Limit(cfg)
    && (info.sentAt == 0 <==> info.retries == 0)
    && (info.retries > 0 ==> info.sentAt == LastNack(log, n))
  }

  ghost predicate AllEntered(cfg: Config, log: seq<Event>, vals: map<int, Info>) {
    forall k :: k in vals ==> Entered(cfg, log, k, vals[k])
  }

  ghost predicate AllTallied(cfg: Config, log: seq<Event>, vals: map<int, Info>) {
    && AllPaced(log)
    && (forall k :: k in vals ==> Tallied(cfg, log, k, vals[k]))
    && (forall n :: NackCount(log, n) <= Limit(cfg))
  }

  /** State and log fit together, whatever the clock. */
  ghost predicate Core(cfg: Config, g: Gen, log: seq<Event>) {
    && AllProper(cfg, log) && AllEntered(cfg, log, g.missing.vals)
    && (forall n :: n > g.highest ==> NackCount(log, n) == 0)
    && (forall n :: n > g.highest && HasArrived(log, n) ==> Contains(g.received, n))
  }

  ghost predicate Ledger(cfg: Config, g: Gen, log: seq<Event>) {
    Core(cfg, g, log) && g.highest == HighestSeen(log) && g.late == LateSeen(cfg, log)
  }

  /** The retry limit and the pacing are kept, and the entries know where they stand. */
  ghost predicate Tally(cfg: Config, g: Gen, log: seq<Event>) {
    AllTallied(cfg, log, g.missing.vals)
  }

  // ------------------------------------------------------------------
  // Arrivals keep it
  // ------------------------------------------------------------------

  lemma ArrivalInv(cfg: Config, g0: Gen, n: nat)
    requires Inv(cfg, g0)
    ensures var g := g0.(received := AddOne(g0.received, n), missing := g0.missing.Delete(n));
            && Inv(cfg, g) && g.missing.vals == g0.missing.vals - {n}
            && forall y :: Contains(g.received, y) <==> y == n || Contains(g0.received, y)
  {
    DeleteOrdered(g0.missing, n);
    AddOneSorted(g0.received, n);
    hide AddOne, Contains, Ordered, Sorted;
    forall y ensures Contains(AddOne(g0.received, n), y) <==> y == n || Contains(g0.received, y) {
      AddOneContains(g0.received, n, y);
    }
  }

  /** What an arrival leaves of an entry for another number. */
  lemma ArrivalEntry(cfg: Config, log: seq<Event>, e: Event, k: int, info: Info)
    requires e.Arrived? && e.num != k
    ensures Entered(cfg, log, k, info) ==> Entered(cfg, log + [e], k, info)
    ensures Tallied(cfg, log, k, info) ==> Tallied(cfg, log + [e], k, info)
  {
    hide HasArrived, NackCount, LastNack, Dated;
    AppendEvent(log, e, k);
    if Entered(cfg, log, k, info) {
      DatedStays(cfg, log, e, k, info);
    }
  }

  /** The arrival itself, before gaps are looked for. */
  lemma ArrivalKeeps(cfg: Config, g0: Gen, n: nat, isRecovered: bool, now: int, log: seq<Event>)
    requires Inv(cfg, g0) && Core(cfg, g0, log)
    ensures var g := g0.(received := AddOne(g0.received, n), missing := g0.missing.Delete(n));
            var log' := log + [Arrived(n, isRecovered, now)];
            Inv(cfg, g) && Core(cfg, g, log') && (Tally(cfg, g0, log) ==> Tally(cfg, g, log'))
  {
    ArrivalInv(cfg, g0, n);
    hide Inv, Contains, AddOne, AllProper, AllPaced, HasArrived, NackCount, Entered, Tallied;
    var g := g0.(received := AddOne(g0.received, n), missing := g0.missing.Delete(n));
    var e := Arrived(n, isRecovered, now);
    forall k ensures NackCount(log + [e], k) == NackCount(log, k)
             ensures HasArrived(log + [e], k) <==> HasArrived(log, k) || k == n
    {
      AppendEvent(log, e, k);
    }
    AppendProper(cfg, log, e);
    assert Proper(cfg, log, e) && Paced(log, e);
    forall k | k in g.missing.vals
      ensures Entered(cfg, log + [e], k, g.missing.vals[k])
      ensures Tally(cfg, g0, log) ==> Tallied(cfg, log + [e], k, g.missing.vals[k])
    {
      assert k != n && g.missing.vals[k] == g0.missing.vals[k];
      ArrivalEntry(cfg, log, e, k, g0.missing.vals[k]);
    }
  }

  /** A state whose missing numbers are a part of those before keeps all when the highest rises. */
  lemma FewerKeeps(cfg: Config, g: Gen, r: Gen, log: seq<Event>)
    requires Core(cfg, g, log) && r.highest >= g.highest
    requires forall k :: k in r.missing.vals ==> k in g.missing.vals && r.missing.vals[k] == g.missing.vals[k]
    requires forall n :: n > r.highest ==> (Contains(r.received, n) <==> Contains(g.received, n))
    ensures Core(cfg, r, log) && (Tally(cfg, g, log) ==> Tally(cfg, r, log))
  {
    hide AllProper, AllPaced, Entered, Tallied, Contains, HasArrived, NackCount;
  }

  lemma FewerLedger(cfg: Config, g: Gen, r: Gen, log: seq<Event>)
    requires Ledger(cfg, g, log) && r.highest == g.highest && r.late == g.late
    requires forall k :: k in r.missing.vals ==> k in g.missing.vals && r.missing.vals[k] == g.missing.vals[k]
    requires forall n :: n > r.highest ==> (Contains(r.received, n) <==> Contains(g.received, n))
    ensures Ledger(cfg, r, log) && (Tally(cfg, g, log) ==> Tally(cfg, r, log))
  {
    FewerKeeps(cfg, g, r, log);
  }

  /** The entries the gap's numbers are added to. */
  lemma RoomKeeps(cfg: Config, g: Gen, cutoff: int)
    requires Inv(cfg, g)
    ensures var r := g.(missing := EvictBelow(g.missing, cutoff));
            && Inv(cfg, r)
            && forall k :: k in r.missing.vals ==> k in g.missing.vals && r.missing.vals[k] == g.missing.vals[k]
  {
    EvictExact(g.missing, cutoff);
  }

  /** The last event revealed the numbers above the highest, at this time and with this median. */
  ghost predicate Revealed(cfg: Config, g: Gen, n: int, now: int, wait: int, log: seq<Event>) {
    forall k :: g.highest < k < n ==> DatedNow(cfg, log, k, now, wait)
  }

  ghost predicate DatedNow(cfg: Config, log: seq<Event>, n: int, now: int, wait: int) {
    Dated(cfg, log, n, Info(now, 0, 0, n + wait))
  }

  lemma InsertKeeps(cfg: Config, g: Gen, n: nat, now: int, wait: int, log: seq<Event>)
    requires Inv(cfg, g) && Core(cfg, g, log) && g.started && n > g.highest + 1
    requires Revealed(cfg, g, n, now, wait, log)
    requires |g.missing.keys| + CountNew(g.received, g.highest + 1, n) <= cfg.maxNackEntries
    ensures var r := g.(missing := Insert(g.missing, g.received, g.highest + 1, n, now, wait), highest := n);
            Inv(cfg, r) && Core(cfg, r, log) && (Tally(cfg, g, log) ==> Tally(cfg, r, log))
  {
    hide AllProper, AllPaced, Contains, Ordered, Sorted, HasArrived, NackCount, LastNack, Dated;
    InsertExact(g.missing, g.received, g.highest + 1, n, now, wait);
    var m := Insert(g.missing, g.received, g.highest + 1, n, now, wait);
    forall k | k in m.vals
      ensures Entered(cfg, log, k, m.vals[k])
      ensures Tally(cfg, g, log) ==> Tallied(cfg, log, k, m.vals[k])
    {
      if k in g.missing.vals {
        assert Entered(cfg, log, k, g.missing.vals[k]);
      } else {
        assert g.highest < k < n && DatedNow(cfg, log, k, now, wait);
        assert NackCount(log, k) == 0;
      }
    }
  }

  lemma GapKeeps(cfg: Config, g: Gen, n: nat, now: int, wait: int, log: seq<Event>)
    requires Inv(cfg, g) && Core(cfg, g, log) && g.started && n > g.highest + 1
    requires Revealed(cfg, g, n, now, wait, log)
    ensures var r := AddMissingRange(cfg, g, g.highest + 1, n, now, wait).(highest := n);
            Inv(cfg, r) && Core(cfg, r, log) && (Tally(cfg, g, log) ==> Tally(cfg, r, log))
  {
    hide Core, Tally, Dated, Contains, Sorted, Insert, CountNew;
    var latest := if g.keyframes == [] then 0 else g.keyframes[|g.keyframes| - 1];
    RoomKeeps(cfg, g, latest);
    var evicted := g.(missing := EvictBelow(g.missing, latest));
    FewerKeeps(cfg, g, evicted, log);
    var newCount := CountNew(g.received, g.highest + 1, n);
    var room := if |g.missing.keys| + newCount > cfg.maxNackEntries && g.keyframes != [] then evicted else g;
    if |room.missing.keys| + newCount > cfg.maxNackEntries {
      FewerKeeps(cfg, g, AddMissingRange(cfg, g, g.highest + 1, n, now, wait).(highest := n), log);
    } else {
      assert Revealed(cfg, room, n, now, wait, log);
      InsertKeeps(cfg, room, n, now, wait, log);
    }
  }

  /** A direct arrival above the highest reveals all numbers between. */
  lemma ArrivalReveals(cfg: Config, g: Gen, n: nat, now: int, log: seq<Event>)
    requires g.highest == HighestSeen(log) && g.late == LateSeen(cfg, log) && n > g.highest
    ensures Revealed(cfg, g, n, now, Wait(cfg, g.late), log + [Arrived(n, false, now)])
  {
    var log' := log + [Arrived(n, false, now)];
    AppendSeen(cfg, log, Arrived(n, false, now));
    hide Wait, LateSeen, HighestSeen;
    assert log'[..|log|] == log && log'[..|log| + 1] == log';
    forall k | g.highest < k < n ensures DatedNow(cfg, log', k, now, Wait(cfg, g.late)) {
      assert Reveals(log', |log|, k);
    }
  }

  lemma SeenObserved(cfg: Config, g: Gen, n: nat, isKeyframe: bool, isRecovered: bool, now: int, log: seq<Event>)
    requires Inv(cfg, g) && g.highest == HighestSeen(log) && g.late == LateSeen(cfg, log)
    ensures var r := Observe(cfg, g, n, isKeyframe, isRecovered, now);
            var log' := log + [Arrived(n, isRecovered, now)];
            r.highest == HighestSeen(log') && r.late == LateSeen(cfg, log')
  {
    AppendSeen(cfg, log, Arrived(n, isRecovered, now));
    hide HighestSeen, LateSeen, Wait, EvictBelow, Insert, CountNew, Clip, DropBelow, AddOne, AddKeyframe, Ordered;
  }

  /** State and log fit in all but the two summaries, and the tally is kept if it was. */
  ghost predicate Fits(cfg: Config, g: Gen, log: seq<Event>, tallied: bool) {
    Inv(cfg, g) && Core(cfg, g, log) && (tallied ==> Tally(cfg, g, log))
  }

  lemma KeyframeKeeps(cfg: Config, g: Gen, n: int, isKeyframe: bool, log: seq<Event>, tallied: bool)
    requires Fits(cfg, g, log, tallied)
    ensures Fits(cfg, NoteKeyframe(g, n, isKeyframe), log, tallied)
  {
    hide AddKeyframe, AllProper, AllTallied, AllEntered, Ordered, Sorted, Contains;
    AddKeyframeExact(g.keyframes, n);
  }

  lemma StartKeeps(cfg: Config, g: Gen, n: nat, log: seq<Event>, tallied: bool)
    requires Fits(cfg, g, log, tallied) && !g.started
    ensures Fits(cfg, g.(started := true, highest := n), log, tallied)
  {
    FewerKeeps(cfg, g, g.(started := true, highest := n), log);
  }

  /** A new highest number, with the gap before it noted or passed over. */
  lemma GapFits(cfg: Config, g: Gen, n: nat, isKeyframe: bool, now: int, wait: int, log: seq<Event>, tallied: bool)
    requires Fits(cfg, g, log, tallied) && g.started && n > g.highest && Revealed(cfg, g, n, now, wait, log)
    ensures var gap :=
              if n <= g.highest + 1 then g
              else if isKeyframe then g.(missing := EvictBelow(g.missing, n))
              else AddMissingRange(cfg, g, g.highest + 1, n, now, wait);
            Fits(cfg, gap.(highest := n), log, tallied)
  {
    hide Core, Tally, Revealed, AddMissingRange, EvictBelow, Sorted, Contains, Ordered;
    if n > g.highest + 1 && !isKeyframe {
      GapKeeps(cfg, g, n, now, wait, log);
    } else {
      RoomKeeps(cfg, g, n);
      FewerKeeps(cfg, g, g.(highest := n), log);
      FewerKeeps(cfg, g, g.(missing := EvictBelow(g.missing, n), highest := n), log);
    }
  }

  lemma AgeFits(cfg: Config, g: Gen, log: seq<Event>, tallied: bool)
    requires Fits(cfg, g, log, tallied)
    ensures Fits(cfg, EvictOld(cfg, g), log, tallied)
  {
    hide Core, Tally, EvictOld, Contains;
    EvictOldKeeps(cfg, g);
    FewerKeeps(cfg, g, EvictOld(cfg, g), log);
  }

  lemma LateFits(cfg: Config, g: Gen, n: int, log: seq<Event>, tallied: bool)
    requires Fits(cfg, g, log, tallied)
    ensures Fits(cfg, NoteLate(cfg, g, n), log, tallied)
  {
    hide Core, Tally, Clamp, Ordered, Sorted, Contains;
    FewerKeeps(cfg, g, NoteLate(cfg, g, n), log);
  }

  lemma ObserveFits(cfg: Config, g: Gen, n: nat, isKeyframe: bool, isRecovered: bool, now: int, log: seq<Event>,
                    tallied: bool)
    requires Fits(cfg, g, log, tallied)
    requires !isRecovered && n > g.highest ==> Revealed(cfg, g, n, now, Wait(cfg, g.late), log)
    ensures Fits(cfg, Placed(cfg, g, n, isKeyframe, isRecovered, now), log, tallied)
  {
    hide Fits, AddMissingRange, EvictOld, EvictBelow, Wait, Revealed, NoteKeyframe, NoteLate;
    if !g.started {
      StartKeeps(cfg, g, n, log, tallied);
      KeyframeKeeps(cfg, g.(started := true, highest := n), n, isKeyframe, log, tallied);
    } else if isRecovered {
      KeyframeKeeps(cfg, g, n, isKeyframe, log, tallied);
    } else if n <= g.highest {
      LateFits(cfg, g, n, log, tallied);
      KeyframeKeeps(cfg, NoteLate(cfg, g, n), n, isKeyframe, log, tallied);
    } else {
      GapFits(cfg, g, n, isKeyframe, now, Wait(cfg, g.late), log, tallied);
      var gap :=
        if n <= g.highest + 1 then g
        else if isKeyframe then g.(missing := EvictBelow(g.missing, n))
        else AddMissingRange(cfg, g, g.highest + 1, n, now, Wait(cfg, g.late));
      KeyframeKeeps(cfg, gap.(highest := n), n, isKeyframe, log, tallied);
      AgeFits(cfg, NoteKeyframe(gap.(highest := n), n, isKeyframe), log, tallied);
    }
  }

  /** Every arrival, recovered or not, keyframe or not, keeps state and log. */
  lemma ObserveKeeps(cfg: Config, g0: Gen, n: nat, isKeyframe: bool, isRecovered: bool, now: int, log: seq<Event>)
    requires Inv(cfg, g0) && Ledger(cfg, g0, log)
    ensures var r := Observe(cfg, g0, n, isKeyframe, isRecovered, now);
            var log' := log + [Arrived(n, isRecovered, now)];
            Inv(cfg, r) && Ledger(cfg, r, log') && (Tally(cfg, g0, log) ==> Tally(cfg, r, log'))
  {
    SeenObserved(cfg, g0, n, isKeyframe, isRecovered, now, log);
    ArrivalKeeps(cfg, g0, n, isRecovered, now, log);
    hide Inv, Core, Tally, AddOne, Placed, HighestSeen, LateSeen, Wait, Revealed;
    var g := g0.(received := AddOne(g0.received, n), missing := g0.missing.Delete(n));
    if !isRecovered && n > g.highest {
      ArrivalReveals(cfg, g, n, now, log);
    }
    ObserveFits(cfg, g, n, isKeyframe, isRecovered, now, log + [Arrived(n, isRecovered, now)], Tally(cfg, g0, log));
  }

  // ------------------------------------------------------------------
  // One sweep
  // ------------------------------------------------------------------

  /** The sweep changes neither which numbers are missing nor since when; a number it lists is marked with the
      time, is not dropped, and had waited. */
  ghost predicate SweptShape(keys: seq<int>, vals: map<int, Info>, now: int, highest: int, s: Swept) {
    && s.vals.Keys == vals.Keys
    && (forall k :: k in vals ==> s.vals[k].createdAt == vals[k].createdAt && s.vals[k].sendAtSeq == vals[k].sendAtSeq)
    && (forall k :: k in vals && k !in s.out ==> s.vals[k] == vals[k])
    && Ascending(s.out)
    && (forall n :: n in s.out ==> n in keys && n in vals && n !in s.drops && Marked(s.vals[n], now, highest))
    && (forall n :: n in s.drops ==> n in keys)
  }

  ghost predicate Marked(info: Info, now: int, highest: int) {
    info.sentAt == now && info.retries > 0 && info.sendAtSeq <= highest
  }

  lemma SweptShapeSend(keys: seq<int>, vals: map<int, Info>, info: Info, now: int, highest: int, s: Swept)
    requires Ascending(keys) && keys != [] && keys[0] in vals && Marked(info, now, highest)
    requires info.createdAt == vals[keys[0]].createdAt && info.sendAtSeq == vals[keys[0]].sendAtSeq
    requires SweptShape(keys[1..], vals[keys[0] := info], now, highest, s)
    ensures SweptShape(keys, vals, now, highest, s.(out := [keys[0]] + s.out))
  {
    hide Marked;
    var k, out := keys[0], [keys[0]] + s.out;
    assert k !in keys[1..];
    forall i | 0 <= i < |s.out| ensures k < s.out[i] {
      assert s.out[i] in s.out && s.out[i] in keys[1..];
    }
    assert forall n :: n in out <==> n == k || n in s.out;
    assert forall n :: n in keys[1..] ==> n in keys;
    assert s.vals[k] == info;
  }

  lemma SweptShapeSkip(keys: seq<int>, vals: map<int, Info>, now: int, highest: int, s: Swept, drops: seq<int>)
    requires Ascending(keys) && keys != [] && SweptShape(keys[1..], vals, now, highest, s)
    requires drops == s.drops || drops == [keys[0]] + s.drops
    ensures SweptShape(keys, vals, now, highest, s.(drops := drops))
  {
    hide Marked;
    assert keys[0] !in keys[1..];
    assert forall n :: n in keys[1..] ==> n in keys;
    assert forall n :: n in drops ==> n in s.drops || n == keys[0];
  }

  lemma {:induction false} SweepShape(cfg: Config, keys: seq<int>, vals: map<int, Info>, now: int, rtt: int,
                                      highest: int)
    requires Ascending(keys) && (forall i :: 0 <= i < |keys| ==> keys[i] in vals) && Waited(vals, highest)
    ensures SweptShape(keys, vals, now, highest, Sweep(cfg, keys, vals, now, rtt, highest))
    decreases |keys|
  {
    if keys != [] {
      hide SweptShape;
      var k, rest := keys[0], keys[1..];
      match Decide(cfg, vals[k], now, rtt, highest)
      case Hold =>
        SweepShape(cfg, rest, vals, now, rtt, highest);
        var s := Sweep(cfg, rest, vals, now, rtt, highest);
        SweptShapeSkip(keys, vals, now, highest, s, s.drops);
      case Drop =>
        SweepShape(cfg, rest, vals, now, rtt, highest);
        var s := Sweep(cfg, rest, vals, now, rtt, highest);
        SweptShapeSkip(keys, vals, now, highest, s, [k] + s.drops);
      case Send(info) =>
        SweepShape(cfg, rest, vals[k := info], now, rtt, highest);
        SweptShapeSend(keys, vals, info, now, highest, Sweep(cfg, rest, vals[k := info], now, rtt, highest));
    }
  }

  /** A number never marked as requested is listed once its two gates are open. */
  lemma {:induction false} SweepLists(cfg: Config, keys: seq<int>, vals: map<int, Info>, now: int, rtt: int,
                                      highest: int, n: int)
    requires Ascending(keys) && (forall i :: 0 <= i < |keys| ==> keys[i] in vals) && n in keys && n in vals
    requires vals[n].sentAt == 0 && now - vals[n].createdAt >= cfg.sendNackDelayMs && vals[n].sendAtSeq <= highest
    ensures n in Sweep(cfg, keys, vals, now, rtt, highest).out
    decreases |keys|
  {
    var k, rest := keys[0], keys[1..];
    if n != k {
      match Decide(cfg, vals[k], now, rtt, highest)
      case Hold => SweepLists(cfg, rest, vals, now, rtt, highest, n);
      case Drop => SweepLists(cfg, rest, vals, now, rtt, highest, n);
      case Send(info) => SweepLists(cfg, rest, vals[k := info], now, rtt, highest, n);
    }
  }

  lemma {:induction false} DeleteAllFewer(m: Missing, ks: seq<int>)
    requires Ordered(m)
    ensures var r := DeleteAll(m, ks);
            && Ordered(r) && |r.keys| <= |m.keys|
            && r.vals == map k | k in m.vals && k !in ks :: m.vals[k]
    decreases |ks|
  {
    if ks != [] {
      DeleteOrdered(m, ks[0]);
      hide Ordered;
      DeleteAllFewer(m.Delete(ks[0]), ks[1..]);
      assert forall k :: k in ks <==> k == ks[0] || k in ks[1..];
    }
  }

  // ------------------------------------------------------------------
  // Feedback keeps it
  // ------------------------------------------------------------------

  function Requests(out: seq<int>, now: int, rtt: int): seq<Event> {
    if out == [] then [] else [Nacked(out[0], now, rtt)] + Requests(out[1..], now, rtt)
  }

  /** What one feedback leaves of the state, at any time. */
  lemma FeedbackShape(cfg: Config, g0: Gen, now: int)
    requires Inv(cfg, g0)
    ensures var r := Feedback(cfg, g0, now);
            && Inv(cfg, r.g) && r.g == EvictOld(cfg, g0).(missing := r.g.missing)
            && Ascending(r.out)
            && (forall n :: n in r.out ==>
                  && 0 <= n < g0.highest && n >= g0.highest - cfg.maxPacketAge
                  && n in g0.missing.vals && n in r.g.missing.vals && Marked(r.g.missing.vals[n], now, g0.highest)
                  && r.g.missing.vals[n].createdAt == g0.missing.vals[n].createdAt)
  {
    hide Contains, Sorted, EvictOld, Sweep, DeleteAll;
    EvictOldKeeps(cfg, g0);
    var g := EvictOld(cfg, g0);
    KeysHeld(g.missing);
    SweepShape(cfg, g.missing.keys, g.missing.vals, now, g.rttMs, g.highest);
    var s := Sweep(cfg, g.missing.keys, g.missing.vals, now, g.rttMs, g.highest);
    DeleteAllFewer(Map(g.missing.keys, s.vals), s.drops);
  }

  /** Only the listed numbers gain requests; nothing arrives, and the summaries stand. */
  ghost predicate OnlyRequested(cfg: Config, log: seq<Event>, log': seq<Event>, keys: seq<int>) {
    && (forall n :: n !in keys ==> NackCount(log', n) == NackCount(log, n))
    && (forall n :: HasArrived(log', n) <==> HasArrived(log, n))
    && HighestSeen(log') == HighestSeen(log) && LateSeen(cfg, log') == LateSeen(cfg, log)
  }

  lemma RequestOnly(cfg: Config, log: seq<Event>, k: int, now: int, rtt: int)
    ensures OnlyRequested(cfg, log, log + [Nacked(k, now, rtt)], [k])
    ensures NackCount(log + [Nacked(k, now, rtt)], k) == NackCount(log, k) + 1
    ensures LastNack(log + [Nacked(k, now, rtt)], k) == now
    ensures forall n :: n != k ==> LastNack(log + [Nacked(k, now, rtt)], n) == LastNack(log, n)
  {
    var e := Nacked(k, now, rtt);
    AppendSeen(cfg, log, e);
    AppendEvent(log, e, k);
    hide NackCount, LastNack, HasArrived, HighestSeen, LateSeen;
    forall n ensures NackCount(log + [e], n) == NackCount(log, n) + (if n == k then 1 else 0)
             ensures n != k ==> LastNack(log + [e], n) == LastNack(log, n)
             ensures HasArrived(log + [e], n) <==> HasArrived(log, n)
    {
      AppendEvent(log, e, n);
    }
  }

  /** One request, allowed by `Decide`, is proper; at a time other than 0 it is also tallied and paced. */
  lemma RequestKeeps(cfg: Config, log: seq<Event>, vals: map<int, Info>, k: int, info: Info, now: int, rtt: int)
    requires AllProper(cfg, log) && AllEntered(cfg, log, vals) && k in vals
    requires Decide(cfg, vals[k], now, rtt, HighestSeen(log)) == Send(info)
    ensures var log' := log + [Nacked(k, now, rtt)];
            && AllProper(cfg, log') && AllEntered(cfg, log', vals[k := info])
            && (now != 0 && AllTallied(cfg, log, vals) ==> AllTallied(cfg, log', vals[k := info]))
  {
    hide AllProper, AllPaced, HasArrived, NackCount, LastNack, HighestSeen, LateSeen, Wait, Reveals, Dated;
    var e := Nacked(k, now, rtt);
    var log', vals' := log + [e], vals[k := info];
    assert Entered(cfg, log, k, vals[k]);
    RequestOnly(cfg, log, k, now, rtt);
    RequestDue(cfg, log, k, vals[k], now, rtt, info);
    AppendProper(cfg, log, e);
    forall j | j in vals' ensures Entered(cfg, log', j, vals'[j]) {
      assert Entered(cfg, log, j, vals[j]);
      DatedStays(cfg, log, e, j, vals[j]);
      DatedAgain(cfg, log', j, vals[j], vals'[j]);
    }
    if now != 0 && AllTallied(cfg, log, vals) {
      assert Tallied(cfg, log, k, vals[k]);
      assert Paced(log, e);
      forall j | j in vals' ensures Tallied(cfg, log', j, vals'[j]) {
        assert Tallied(cfg, log, j, vals[j]);
      }
    }
  }

  lemma DatedAgain(cfg: Config, log: seq<Event>, n: int, a: Info, b: Info)
    requires Dated(cfg, log, n, a) && a.createdAt == b.createdAt && a.sendAtSeq == b.sendAtSeq
    ensures Dated(cfg, log, n, b)
  {
    hide Reveals, Wait, LateSeen;
  }

  lemma RequestDue(cfg: Config, log: seq<Event>, k: int, was: Info, now: int, rtt: int, info: Info)
    requires Entered(cfg, log, k, was) && Decide(cfg, was, now, rtt, HighestSeen(log)) == Send(info)
    ensures Proper(cfg, log, Nacked(k, now, rtt))
  {
    hide Reveals, Wait, LateSeen, NackCount, HasArrived, HighestSeen;
  }

  /** What a sweep over these keys leaves of the log. */
  ghost predicate SweptWell(cfg: Config, keys: seq<int>, vals: map<int, Info>, now: int, rtt: int, log: seq<Event>,
                            s: Swept)
  {
    var log' := log + Requests(s.out, now, rtt);
    && AllProper(cfg, log') && AllEntered(cfg, log', s.vals) && OnlyRequested(cfg, log, log', keys)
    && (now != 0 && AllTallied(cfg, log, vals) ==> AllTallied(cfg, log', s.vals))
  }

  lemma SweptSend(cfg: Config, keys: seq<int>, vals: map<int, Info>, info: Info, now: int, rtt: int, log: seq<Event>,
                  s: Swept)
    requires keys != [] && keys[0] in vals
    requires var log1 := log + [Nacked(keys[0], now, rtt)];
             && OnlyRequested(cfg, log, log1, [keys[0]])
             && (now != 0 && AllTallied(cfg, log, vals) ==> AllTallied(cfg, log1, vals[keys[0] := info]))
             && SweptWell(cfg, keys[1..], vals[keys[0] := info], now, rtt, log1, s)
    ensures SweptWell(cfg, keys, vals, now, rtt, log, s.(out := [keys[0]] + s.out))
  {
    hide AllProper, AllEntered, AllTallied, NackCount, HasArrived, HighestSeen, LateSeen;
    var k := keys[0];
    var out := [k] + s.out;
    assert out[1..] == s.out;
    assert log + Requests(out, now, rtt) == (log + [Nacked(k, now, rtt)]) + Requests(s.out, now, rtt);
    assert forall n :: n in keys[1..] ==> n in keys;
  }

  lemma {:induction false} SweepKeeps(cfg: Config, keys: seq<int>, vals: map<int, Info>, now: int, rtt: int,
                                      log: seq<Event>)
    requires forall i :: 0 <= i < |keys| ==> keys[i] in vals
    requires AllProper(cfg, log) && AllEntered(cfg, log, vals)
    ensures SweptWell(cfg, keys, vals, now, rtt, log, Sweep(cfg, keys, vals, now, rtt, HighestSeen(log)))
    decreases |keys|
  {
    hide AllProper, AllEntered, AllTallied, NackCount, HasArrived, HighestSeen, LateSeen;
    if keys == [] {
      assert log + [] == log;
    } else {
      var k, rest := keys[0], keys[1..];
      assert forall n :: n in rest ==> n in keys;
      match Decide(cfg, vals[k], now, rtt, HighestSeen(log))
      case Hold =>
        SweepKeeps(cfg, rest, vals, now, rtt, log);
      case Drop =>
        SweepKeeps(cfg, rest, vals, now, rtt, log);
      case Send(info) =>
        var log1 := log + [Nacked(k, now, rtt)];
        RequestKeeps(cfg, log, vals, k, info, now, rtt);
        RequestOnly(cfg, log, k, now, rtt);
        SweepKeeps(cfg, rest, vals[k := info], now, rtt, log1);
        SweptSend(cfg, keys, vals, info, now, rtt, log, Sweep(cfg, rest, vals[k := info], now, rtt, HighestSeen(log)));
    }
  }

  /** Every feedback, at any time, keeps state and log, and lists numbers ascending inside the window. */
  lemma FeedbackKeeps(cfg: Config, g0: Gen, now: int, log: seq<Event>)
    requires Inv(cfg, g0) && Ledger(cfg, g0, log)
    ensures var r := Feedback(cfg, g0, now);
            var log' := log + Requests(r.out, now, g0.rttMs);
            && Inv(cfg, r.g) && Ledger(cfg, r.g, log')
            && (now != 0 && Tally(cfg, g0, log) ==> Tally(cfg, r.g, log'))
            && Ascending(r.out)
            && forall i :: 0 <= i < |r.out| ==> 0 <= r.out[i] < g0.highest && r.out[i] >= g0.highest - cfg.maxPacketAge
  {
    FeedbackShape(cfg, g0, now);
    FeedbackCore(cfg, g0, now, log);
    hide Feedback, Inv, Core, Tally, Requests, HighestSeen, LateSeen, EvictOld, Marked;
    EvictOldKeeps(cfg, g0);
    var out := Feedback(cfg, g0, now).out;
    forall i | 0 <= i < |out| ensures 0 <= out[i] < g0.highest && out[i] >= g0.highest - cfg.maxPacketAge {
      assert out[i] in out;
    }
  }

  lemma FeedbackCore(cfg: Config, g0: Gen, now: int, log: seq<Event>)
    requires Inv(cfg, g0) && Ledger(cfg, g0, log)
    ensures var r := Feedback(cfg, g0, now);
            var log' := log + Requests(r.out, now, g0.rttMs);
            && Core(cfg, r.g, log')
            && HighestSeen(log') == HighestSeen(log) && LateSeen(cfg, log') == LateSeen(cfg, log)
            && (now != 0 && Tally(cfg, g0, log) ==> Tally(cfg, r.g, log'))
  {
    EvictOldKeeps(cfg, g0);
    var g := EvictOld(cfg, g0);
    FewerKeeps(cfg, g0, g, log);
    SweptOrdered(cfg, g, now);
    SweepKeeps(cfg, g.missing.keys, g.missing.vals, now, g.rttMs, log);
    var s := Sweep(cfg, g.missing.keys, g.missing.vals, now, g.rttMs, g.highest);
    var log' := log + Requests(s.out, now, g.rttMs);
    NoneAbove(cfg, g);
    hide EvictOld, Sweep, Requests, HighestSeen, LateSeen, Inv, Ordered;
    SweptFits(cfg, g, s, now, log, log');
    SweptFewer(cfg, g, s, log');
  }

  lemma NoneAbove(cfg: Config, g: Gen)
    requires Inv(cfg, g)
    ensures forall n :: n > g.highest ==> n !in g.missing.keys
  {
    hide Contains, Sorted, Ascending;
    forall n | n > g.highest ensures n !in g.missing.keys {
      assert n !in g.missing.vals;
    }
  }

  lemma SweptFits(cfg: Config, g: Gen, s: Swept, now: int, log: seq<Event>, log': seq<Event>)
    requires Core(cfg, g, log) && (forall n :: n > g.highest ==> n !in g.missing.keys)
    requires AllProper(cfg, log') && AllEntered(cfg, log', s.vals) && OnlyRequested(cfg, log, log', g.missing.keys)
    ensures Core(cfg, g.(missing := Map(g.missing.keys, s.vals)), log')
  {
    hide AllProper, AllEntered, HasArrived, NackCount, HighestSeen, LateSeen, Contains;
  }

  lemma SweptFewer(cfg: Config, g: Gen, s: Swept, log: seq<Event>)
    requires Ordered(Map(g.missing.keys, s.vals)) && Core(cfg, g.(missing := Map(g.missing.keys, s.vals)), log)
    ensures var r := g.(missing := DeleteAll(Map(g.missing.keys, s.vals), s.drops));
            Core(cfg, r, log) && (AllTallied(cfg, log, s.vals) ==> Tally(cfg, r, log))
  {
    var m := Map(g.missing.keys, s.vals);
    DeleteAllFewer(m, s.drops);
    hide Core, DeleteAll, Ordered;
    FewerKeeps(cfg, g.(missing := m), g.(missing := DeleteAll(m, s.drops)), log);
  }

  lemma SweptOrdered(cfg: Config, g: Gen, now: int)
    requires Inv(cfg, g)
    ensures forall i :: 0 <= i < |g.missing.keys| ==> g.missing.keys[i] in g.missing.vals
    ensures Ordered(Map(g.missing.keys, Sweep(cfg, g.missing.keys, g.missing.vals, now, g.rttMs, g.highest).vals))
  {
    hide Sweep, Contains, Sorted;
    KeysHeld(g.missing);
    SweepShape(cfg, g.missing.keys, g.missing.vals, now, g.rttMs, g.highest);
  }

  /** A number listed at time 0 is marked as never requested: the tally is lost. */
  lemma ZeroBreaksTally(cfg: Config, g0: Gen, log: seq<Event>)
    requires Inv(cfg, g0) && Feedback(cfg, g0, 0).out != []
    ensures !Tally(cfg, Feedback(cfg, g0, 0).g, log)
  {
    hide Feedback, NackCount, LastNack;
    FeedbackShape(cfg, g0, 0);
    var r := Feedback(cfg, g0, 0);
    var n := r.out[0];
    assert n in r.out;
    assert !Tallied(cfg, log, n, r.g.missing.vals[n]);
  }

  /** Exactly: a feedback keeps the tally unless it is made at time 0 and lists something. */
  lemma FeedbackTally(cfg: Config, g0: Gen, now: int, log: seq<Event>)
    requires Inv(cfg, g0) && Ledger(cfg, g0, log)
    ensures var r := Feedback(cfg, g0, now);
            var log' := log + Requests(r.out, now, g0.rttMs);
            && Inv(cfg, r.g) && Ledger(cfg, r.g, log')
            && (Tally(cfg, g0, log) ==> (Tally(cfg, r.g, log') <==> now != 0 || r.out == []))
            && (NoneAtZero(log') <==> NoneAtZero(log) && (now != 0 || r.out == []))
  {
    hide Feedback, Inv, Ledger, Tally, NoneAtZero;
    InvParts(cfg, g0);
    FeedbackKeeps(cfg, g0, now, log);
    var r := Feedback(cfg, g0, now);
    NoneAtZeroRequests(r.out, now, g0.rttMs);
    NoneAtZeroAppend(log, Requests(r.out, now, g0.rttMs));
    if now == 0 {
      if r.out == [] {
        SilentKeeps(cfg, g0, now, log);
      } else {
        ZeroBreaksTally(cfg, g0, log + Requests(r.out, now, g0.rttMs));
      }
    }
  }

  /** A feedback that lists nothing only drops entries. */
  lemma SilentKeeps(cfg: Config, g0: Gen, now: int, log: seq<Event>)
    requires Inv(cfg, g0) && Ledger(cfg, g0, log) && Feedback(cfg, g0, now).out == []
    ensures log + Requests([], now, g0.rttMs) == log
    ensures Tally(cfg, g0, log) ==> Tally(cfg, Feedback(cfg, g0, now).g, log)
  {
    hide AllProper, AllPaced, Contains, Sorted, Entered, Tallied, HasArrived, NackCount, HighestSeen, LateSeen;
    hide EvictOld, Sweep, DeleteAll;
    EvictOldKeeps(cfg, g0);
    var g := EvictOld(cfg, g0);
    KeysHeld(g.missing);
    SweepShape(cfg, g.missing.keys, g.missing.vals, now, g.rttMs, g.highest);
    var s := Sweep(cfg, g.missing.keys, g.missing.vals, now, g.rttMs, g.highest);
    DeleteAllFewer(Map(g.missing.keys, s.vals), s.drops);
  }

  /** In every state: what is listed at time 0 is listed again, whatever the round-trip time and the retry
      limit, by the next feedback that lies the configured delay past the entry's creation. */
  lemma ZeroListedAgain(cfg: Config, g0: Gen, later: int, n: int)
    requires Inv(cfg, g0) && n in Feedback(cfg, g0, 0).out
    ensures n in g0.missing.vals && Ordered(Feedback(cfg, g0, 0).g.missing)
    ensures later - g0.missing.vals[n].createdAt >= cfg.sendNackDelayMs
        ==> n in Feedback(cfg, Feedback(cfg, g0, 0).g, later).out
  {
    FeedbackShape(cfg, g0, 0);
    var g1 := Feedback(cfg, g0, 0).g;
    if later - g0.missing.vals[n].createdAt >= cfg.sendNackDelayMs {
      EvictOldSame(cfg, g0, 0);
      hide Feedback, Sweep, DeleteAll, EvictOld;
      EvictOldOrdered(cfg, g1);
      var g := EvictOld(cfg, g1);
      KeysHeld(g.missing);
      KeptInWindow(cfg, g1, n);
      SweepLists(cfg, g.missing.keys, g.missing.vals, later, g.rttMs, g.highest, n);
      FeedbackOut(cfg, g1, later);
    }
  }

  lemma EvictOldSame(cfg: Config, g0: Gen, now: int)
    requires Inv(cfg, g0)
    ensures Feedback(cfg, g0, now).g.highest == g0.highest
  {
  }

  lemma FeedbackOut(cfg: Config, g: Gen, now: int)
    requires Ordered(g.missing)
    ensures var e := EvictOld(cfg, g);
            && Ordered(e.missing) && (forall i :: 0 <= i < |e.missing.keys| ==> e.missing.keys[i] in e.missing.vals)
            && Feedback(cfg, g, now).out == Sweep(cfg, e.missing.keys, e.missing.vals, now, e.rttMs, e.highest).out
  {
    EvictOldOrdered(cfg, g);
    KeysHeld(EvictOld(cfg, g).missing);
  }

  /** An entry inside the window survives ageing out. */
  lemma KeptInWindow(cfg: Config, g: Gen, n: int)
    requires Inv(cfg, g) && n in g.missing.vals && n >= g.highest - cfg.maxPacketAge
    ensures var e := EvictOld(cfg, g);
            && n in e.missing.vals && n in e.missing.keys
            && e.missing.vals[n] == g.missing.vals[n] && e.highest == g.highest
  {
    EvictExact(g.missing, g.highest - cfg.maxPacketAge);
  }

  // ------------------------------------------------------------------
  // Whole runs
  // ------------------------------------------------------------------

  datatype Op =
    | ObserveOp(num: nat, isKeyframe: bool, isRecovered: bool, now: int)
    | FeedbackOp(now: int)
    | RttOp(rttMs: int)
    | AcknowledgeOp

  datatype Trace = Trace(g: Gen, log: seq<Event>)

  ghost function Apply(cfg: Config, tr: Trace, op: Op): Trace
    requires Inv(cfg, tr.g)
  {
    match op
    case ObserveOp(n, isKeyframe, isRecovered, now) =>
      Trace(Observe(cfg, tr.g, n, isKeyframe, isRecovered, now), tr.log + [Arrived(n, isRecovered, now)])
    case FeedbackOp(now) =>
      var r := Feedback(cfg, tr.g, now);
      Trace(r.g, tr.log + Requests(r.out, now, tr.g.rttMs))
    case RttOp(rttMs) => Trace(UpdateRtt(tr.g, rttMs), tr.log)
    case AcknowledgeOp => Trace(tr.g.(needKeyframe := false), tr.log)
  }

  /** No request bears the time 0, which in an entry means "never requested". */
  ghost predicate NoneAtZero(log: seq<Event>) {
    forall i :: 0 <= i < |log| && log[i].Nacked? ==> log[i].time != 0
  }

  lemma NoneAtZeroAppend(a: seq<Event>, b: seq<Event>)
    ensures NoneAtZero(a + b) <==> NoneAtZero(a) && NoneAtZero(b)
  {
    if NoneAtZero(a + b) {
      assert forall i :: 0 <= i < |a| ==> a[i] == (a + b)[i];
      assert forall i :: 0 <= i < |b| ==> b[i] == (a + b)[|a| + i];
    }
  }

  lemma {:induction false} NoneAtZeroRequests(out: seq<int>, now: int, rtt: int)
    ensures NoneAtZero(Requests(out, now, rtt)) <==> now != 0 || out == []
    decreases |out|
  {
    if out != [] {
      var e, rest := Nacked(out[0], now, rtt), Requests(out[1..], now, rtt);
      NoneAtZeroRequests(out[1..], now, rtt);
      NoneAtZeroAppend([e], rest);
      assert [e][0] == e;
    }
  }

  /** What holds after every call: the state invariant and the ledger at any clock, the tally as long as nothing
      was requested at time 0. */
  ghost predicate Sound(cfg: Config, tr: Trace) {
    Inv(cfg, tr.g) && Ledger(cfg, tr.g, tr.log) && (NoneAtZero(tr.log) ==> Tally(cfg, tr.g, tr.log))
  }

  lemma ApplyKeeps(cfg: Config, tr: Trace, op: Op)
    requires Sound(cfg, tr)
    ensures Sound(cfg, Apply(cfg, tr, op))
  {
    hide Inv, Ledger, Tally, NoneAtZero, Observe, Feedback, Requests;
    match op
    case ObserveOp(n, isKeyframe, isRecovered, now) =>
      ObserveKeeps(cfg, tr.g, n, isKeyframe, isRecovered, now, tr.log);
      NoneAtZeroAppend(tr.log, [Arrived(n, isRecovered, now)]);
    case FeedbackOp(now) => FeedbackTally(cfg, tr.g, now, tr.log);
    case RttOp(rttMs) => SettingKeeps(cfg, tr.g, UpdateRtt(tr.g, rttMs), tr.log);
    case AcknowledgeOp => SettingKeeps(cfg, tr.g, tr.g.(needKeyframe := false), tr.log);
  }

  lemma SettingKeeps(cfg: Config, g: Gen, r: Gen, log: seq<Event>)
    requires Inv(cfg, g) && Ledger(cfg, g, log) && r == g.(rttMs := r.rttMs, needKeyframe := r.needKeyframe)
    ensures Inv(cfg, r) && Ledger(cfg, r, log) && (Tally(cfg, g, log) ==> Tally(cfg, r, log))
  {
    FewerLedger(cfg, g, r, log);
  }

  /** The run of any calls on a new generator, at any clock. */
  ghost function Run(cfg: Config, rttMs: int, ops: seq<Op>): (tr: Trace)
    ensures Sound(cfg, tr)
    decreases |ops|
  {
    if ops == [] then
      Trace(Initial(rttMs), [])
    else
      var before := Run(cfg, rttMs, ops[..|ops| - 1]);
      var op := ops[|ops| - 1];
      ApplyKeeps(cfg, before, op);
      Apply(cfg, before, op)
  }

  /** When no feedback is asked for at time 0, nothing is requested at time 0. */
  lemma {:induction false} ClockNotZero(cfg: Config, rttMs: int, ops: seq<Op>)
    requires forall i :: 0 <= i < |ops| && ops[i].FeedbackOp? ==> ops[i].now != 0
    ensures NoneAtZero(Run(cfg, rttMs, ops).log)
    decreases |ops|
  {
    if ops != [] {
      hide NoneAtZero, Sound, Apply;
      var init := ops[..|ops| - 1];
      ClockNotZero(cfg, rttMs, init);
      ApplyNotZero(cfg, Run(cfg, rttMs, init), ops[|ops| - 1]);
    }
  }

  lemma ApplyNotZero(cfg: Config, tr: Trace, op: Op)
    requires Sound(cfg, tr) && NoneAtZero(tr.log) && (op.FeedbackOp? ==> op.now != 0)
    ensures Inv(cfg, tr.g) && NoneAtZero(Apply(cfg, tr, op).log)
  {
    SoundOrdered(cfg, tr);
    hide NoneAtZero, Sound, Inv, Requests, Observe, Feedback, Ordered;
    match op
    case ObserveOp(n, _, isRecovered, now) =>
      NoneAtZeroAppend(tr.log, [Arrived(n, isRecovered, now)]);
      NoRequest(Arrived(n, isRecovered, now));
    case FeedbackOp(now) =>
      var out := Feedback(cfg, tr.g, now).out;
      NoneAtZeroRequests(out, now, tr.g.rttMs);
      NoneAtZeroAppend(tr.log, Requests(out, now, tr.g.rttMs));
    case RttOp(_) =>
    case AcknowledgeOp =>
  }

  lemma NoRequest(e: Event)
    ensures e.Arrived? ==> NoneAtZero([e])
  {
  }

  lemma SoundOrdered(cfg: Config, tr: Trace)
    requires Sound(cfg, tr)
    ensures Inv(cfg, tr.g) && Ordered(tr.g.missing)
  {
  }

  // ------------------------------------------------------------------
  // What the runs promise
  // ------------------------------------------------------------------

  /** No number is requested after it arrived, however it arrived. */
  lemma NeverAfterArrival(cfg: Config, log: seq<Event>, i: nat, j: nat)
    requires AllProper(cfg, log) && i < j < |log| && log[i].Arrived? && log[j].Nacked?
    ensures log[i].num != log[j].num
  {
    hide Due;
    assert Proper(cfg, log[..j], log[j]);
    assert log[..j][i] == log[i];
    assert IsArrivalOf(log[..j][i], log[i].num);
  }

  lemma {:induction false} LastIs(log: seq<Event>, i: nat, n: int)
    requires i < |log| && IsNackOf(log[i], n) && forall k :: i < k < |log| ==> !IsNackOf(log[k], n)
    ensures NackCount(log, n) > 0 && LastNack(log, n) == log[i].time
    decreases |log|
  {
    if i < |log| - 1 {
      LastIs(log[..|log| - 1], i, n);
    }
  }

  /** Between two requests for the same number at least the round-trip time then known passes. */
  lemma RoundTripApart(log: seq<Event>, i: nat, j: nat, n: int)
    requires AllPaced(log) && i < j < |log| && IsNackOf(log[i], n) && IsNackOf(log[j], n)
    requires forall k :: i < k < j ==> !IsNackOf(log[k], n)
    ensures log[j].time - log[i].time >= log[j].rtt
  {
    assert Paced(log[..j], log[j]);
    LastIs(log[..j], i, n);
  }

  lemma {:induction false} FirstIs(log: seq<Event>, n: int)
    requires forall k :: 0 <= k < |log| ==> !IsNackOf(log[k], n)
    ensures NackCount(log, n) == 0
    decreases |log|
  {
    if log != [] {
      FirstIs(log[..|log| - 1], n);
    }
  }

  /** Event `j` of the log, if it is a request: the number did not arrive at `i` before, and when it is the first
      for its number, it is due. */
  ghost predicate Allowed(cfg: Config, log: seq<Event>, i: nat, j: nat) {
    j < |log| && log[j].Nacked? ==>
      && (i < j && log[i].Arrived? ==> log[i].num != log[j].num)
      && ((forall k :: 0 <= k < j ==> !IsNackOf(log[k], log[j].num)) ==> Due(cfg, log[..j], log[j].num, log[j].time))
  }

  /** Event `j` of the log, if it is a request, is one of at most max(1, maxNackRetries) for its number, and a
      round trip has passed since the last request for it, at `i`. */
  ghost predicate Measured(cfg: Config, log: seq<Event>, i: nat, j: nat) {
    i < j < |log| && log[j].Nacked? ==>
      && NackCount(log, log[j].num) <= Limit(cfg)
      && (IsNackOf(log[i], log[j].num) && (forall k :: i < k < j ==> !IsNackOf(log[k], log[j].num))
          ==> log[j].time - log[i].time >= log[j].rtt)
  }

  /** In any run, at any clock, every request is allowed; and as long as none bears the time 0, every request is
      measured. */
  lemma RunRequests(cfg: Config, rttMs: int, ops: seq<Op>, i: nat, j: nat)
    ensures var log := Run(cfg, rttMs, ops).log;
            Allowed(cfg, log, i, j) && (NoneAtZero(log) ==> Measured(cfg, log, i, j))
  {
    hide Run, NackCount, AllProper, AllPaced, Due, NoneAtZero, HasArrived;
    var log := Run(cfg, rttMs, ops).log;
    assert AllProper(cfg, log) by { SoundProper(cfg, Run(cfg, rttMs, ops)); }
    if j < |log| && log[j].Nacked? {
      var n := log[j].num;
      if i < j && log[i].Arrived? {
        NeverAfterArrival(cfg, log, i, j);
      }
      if forall k :: 0 <= k < j ==> !IsNackOf(log[k], n) {
        FirstIs(log[..j], n);
        ProperAt(cfg, log, j);
      }
      if NoneAtZero(log) && i < j && IsNackOf(log[i], n) && forall k :: i < k < j ==> !IsNackOf(log[k], n) {
        SoundProper(cfg, Run(cfg, rttMs, ops));
        RoundTripApart(log, i, j, n);
      }
      if NoneAtZero(log) {
        SoundProper(cfg, Run(cfg, rttMs, ops));
      }
    }
  }

  lemma SoundProper(cfg: Config, tr: Trace)
    requires Sound(cfg, tr)
    ensures AllProper(cfg, tr.log)
    ensures NoneAtZero(tr.log) ==> AllPaced(tr.log) && forall n :: NackCount(tr.log, n) <= Limit(cfg)
  {
  }

  lemma ProperAt(cfg: Config, log: seq<Event>, j: nat)
    requires AllProper(cfg, log) && j < |log|
    ensures Proper(cfg, log[..j], log[j])
  {
  }

  /** With a window of at most 65536 the 16-bit numbers of one feedback are distinct. */
  lemma DistinctOnWire(cfg: Config, g: Gen, now: int, i: nat, j: nat)
    requires Inv(cfg, g) && cfg.maxPacketAge <= 0x1_0000
    requires i < j < |Feedback(cfg, g, now).out|
    ensures OnWire(Feedback(cfg, g, now).out)[i] != OnWire(Feedback(cfg, g, now).out)[j]
  {
    hide Feedback;
    var out := Feedback(cfg, g, now).out;
    FeedbackShape(cfg, g, now);
    assert out[i] in out && out[j] in out;
    assert out[i] < out[j] < out[i] + 0x1_0000;
  }

  /** One such run: with delay 0 and one retry allowed, number 1 is requested twice at time 0. */
  lemma ZeroClockRepeats()
    ensures var cfg := Config(100, 10, 1, 0, 10, 128);
            var g := Observe(cfg, Observe(cfg, Initial(50), 0, false, false, 0), 2, false, false, 0);
            && Ordered(g.missing) && Feedback(cfg, g, 0).out == [1]
            && Ordered(Feedback(cfg, g, 0).g.missing) && Feedback(cfg, Feedback(cfg, g, 0).g, 0).out == [1]
  {
    var cfg := Config(100, 10, 1, 0, 10, 128);
    var g1 := Observe(cfg, Initial(50), 0, false, false, 0);
    assert g1.received == [0, 1] && g1.late == [];
    var g := Observe(cfg, g1, 2, false, false, 0);
    assert g.received == [0, 1, 2, 3];
    var info := Info(0, 0, 0, 1);
    assert g.missing == Map([1], map[1 := info]);
  }

  // ------------------------------------------------------------------
  // The object
  // ------------------------------------------------------------------

  class NackGenerator {
    const cfg: Config
    var received: seq<int>
    var missing: Missing
    var keyframes: seq<int>
    var highest: int
    var started: bool
    var needKeyframe: bool
    var rttMs: int
    const reorder: Histogram
    /** What arrived and what was requested so far. */
    ghost var log: seq<Event>

    ghost function Abs(): Gen
      reads this, reorder
    {
      Gen(received, missing, keyframes, highest, started, needKeyframe, rttMs, reorder.samples)
    }

    ghost predicate Valid()
      reads this, reorder, reorder.buckets
    {
      && Inv(cfg, Abs()) && Ledger(cfg, Abs(), log)
      && (NoneAtZero(log) ==> Tally(cfg, Abs(), log))
      && Measures()
    }

    /** The histogram is the one this configuration asks for. */
    ghost predicate Measures()
      reads reorder, reorder.buckets
    {
      reorder.Valid() && reorder.buckets.Length == cfg.reorderBuckets && reorder.maxNumValues == cfg.reorderValues
    }

    constructor (cfg: Config, rttMs: int)
      ensures Valid() && Abs() == Initial(rttMs) && this.cfg == cfg && log == []
      ensures fresh(reorder) && fresh(reorder.buckets)
    {
      this.cfg, this.rttMs := cfg, rttMs;
      received, missing, keyframes := [], Map([], map[]), [];
      highest, started, needKeyframe := -1, false, false;
      log := [];
      reorder := new Histogram(cfg.reorderBuckets, cfg.reorderValues);
    }

    /** The median reordering distance of the latest late packets, 0 while nothing came late. */
    method WaitNumberOfPackets() returns (wait: nat)
      requires Measures()
      ensures wait == Wait(cfg, reorder.samples)
    {
      if |reorder.values| == 0 {
        hide Unrolled;
        assert reorder.samples == [];
        return 0;
      }
      wait := reorder.InverseCdf(0.5);
    }

    method InsertKeyframe(n: int)
      requires Ascending(keyframes)
      modifies this`keyframes
      ensures keyframes == AddKeyframe(old(keyframes), n)
    {
      var arr := keyframes;
      if |arr| == 0 || arr[|arr| - 1] < n {
        AddKeyframeAt(arr, n, |arr|);
        assert arr[..|arr|] + [n] + arr[|arr|..] == arr + [n];
        keyframes := arr + [n];
        return;
      }
      var lo, hi := 0, |arr|;
      while lo < hi
        invariant 0 <= lo <= hi <= |arr|
        invariant forall i :: 0 <= i < lo ==> arr[i] < n
        invariant forall i :: hi <= i < |arr| ==> arr[i] >= n
      {
        var mid := (lo + hi) / 2;
        if arr[mid] < n {
          lo := mid + 1;
        } else {
          hi := mid;
        }
      }
      AddKeyframeAt(arr, n, lo);
      if arr[lo] != n {
        keyframes := arr[..lo] + [n] + arr[lo..];
      }
    }

    method EvictMissingBelow(cutoff: int)
      modifies this`missing
      ensures missing == EvictBelow(old(missing), cutoff)
    {
      while missing.keys != [] && missing.keys[0] < cutoff
        invariant EvictBelow(missing, cutoff) == EvictBelow(old(missing), cutoff)
        decreases |missing.keys|
      {
        DeleteFirstShorter(missing);
        missing := missing.Delete(missing.keys[0]);
      }
    }

    method AgeOut()
      requires Sorted(received)
      modifies this
      ensures Abs() == EvictOld(cfg, old(Abs())) && log == old(log)
    {
      hide Sorted, Clip;
      if highest < 0 {
        return;
      }
      var cutoff := highest - cfg.maxPacketAge;
      if cutoff <= 0 {
        return;
      }
      received := ClipInPlace(received, cutoff);
      var dropTo := 0;
      ghost var goal := DropBelow(keyframes, cutoff);
      while dropTo < |keyframes| && keyframes[dropTo] < cutoff
        invariant 0 <= dropTo <= |keyframes|
        invariant DropBelow(keyframes[dropTo..], cutoff) == goal
      {
        assert keyframes[dropTo..][1..] == keyframes[dropTo + 1..];
        dropTo := dropTo + 1;
      }
      keyframes := keyframes[dropTo..];
      EvictMissingBelow(cutoff);
    }

    method CountGap(start: int, end: int) returns (newCount: nat)
      ensures newCount == CountNew(received, start, end)
    {
      hide Contains;
      newCount := 0;
      var s := start;
      while s < end
        invariant newCount + CountNew(received, s, end) == CountNew(received, start, end)
        decreases end - s
      {
        if !Contains(received, s) {
          newCount := newCount + 1;
        }
        s := s + 1;
      }
    }

    /** Counts first what would be added, as the eviction policy must know it. */
    method NoteGap(start: int, end: int, now: int)
      requires Measures()
      modifies this
      ensures Abs() == AddMissingRange(cfg, old(Abs()), start, end, now, Wait(cfg, reorder.samples))
      ensures received == old(received) && keyframes == old(keyframes) && log == old(log)
    {
      hide Contains, CountNew, EvictBelow, Insert, Wait;
      var newCount := CountGap(start, end);
      var fits := MakeRoom(newCount);
      if !fits {
        missing := Map([], map[]);
        needKeyframe := true;
        return;
      }
      var median := WaitNumberOfPackets();
      FillGap(start, end, now, median);
    }

    /** Lets go of what lies before the last keyframe when the entries would be too many. */
    method MakeRoom(newCount: nat) returns (fits: bool)
      modifies this`missing
      ensures missing == if |old(missing).keys| + newCount > cfg.maxNackEntries && keyframes != []
                         then EvictBelow(old(missing), keyframes[|keyframes| - 1]) else old(missing)
      ensures fits <==> |missing.keys| + newCount <= cfg.maxNackEntries
    {
      hide EvictBelow;
      if missing.Size() + newCount > cfg.maxNackEntries {
        if |keyframes| > 0 {
          EvictMissingBelow(keyframes[|keyframes| - 1]);
        }
        if missing.Size() + newCount > cfg.maxNackEntries {
          return false;
        }
      }
      fits := true;
    }

    method FillGap(start: int, end: int, now: int, median: nat)
      modifies this`missing
      ensures missing == Insert(old(missing), received, start, end, now, median)
    {
      hide Contains;
      var s := start;
      ghost var goal := Insert(missing, received, start, end, now, median);
      while s < end
        invariant Insert(missing, received, s, end, now, median) == goal
        decreases end - s
      {
        if !Contains(received, s) {
          missing := missing.Set(s, Info(now, 0, 0, s + median));
        }
        s := s + 1;
      }
    }

    /** One arriving packet; one behind the highest is a sample of the reordering distance. */
    method ObservePacket(n: nat, isKeyframe: bool, isRecovered: bool, now: int)
      requires Valid()
      modifies this, reorder, reorder.buckets
      ensures Valid() && log == old(log) + [Arrived(n, isRecovered, now)]
      ensures Abs() == Observe(cfg, old(Abs()), n, isKeyframe, isRecovered, now)
    {
      hide Inv, Ledger, Tally, Observe, Measures;
      ghost var g0 := Abs();
      InvParts(cfg, g0);
      AddOneSorted(received, n);
      Arrive(n, isKeyframe, isRecovered, now);
      ObserveKeeps(cfg, g0, n, isKeyframe, isRecovered, now, log);
      NoneAtZeroAppend(log, [Arrived(n, isRecovered, now)]);
      log := log + [Arrived(n, isRecovered, now)];
    }

    method Arrive(n: nat, isKeyframe: bool, isRecovered: bool, now: int)
      requires Measures() && Ascending(keyframes) && Sorted(AddOne(received, n))
      modifies this, reorder, reorder.buckets
      ensures Measures() && log == old(log)
      ensures Abs() == Observe(cfg, old(Abs()), n, isKeyframe, isRecovered, now)
    {
      hide Contains, Sorted, AddOne, EvictBelow, EvictOld, AddMissingRange, AddKeyframe, Clamp, Ascending, Wait;
      received := AddOne(received, n);
      missing := missing.Delete(n);
      if !started {
        started := true;
        highest := n;
        if isKeyframe {
          InsertKeyframe(n);
        }
        return;
      }
      if isRecovered {
        if isKeyframe {
          InsertKeyframe(n);
        }
        return;
      }
      if n <= highest {
        if n < highest {
          reorder.AddSample(highest - n);
        }
        if isKeyframe {
          InsertKeyframe(n);
        }
        return;
      }
      if n > highest + 1 {
        if isKeyframe {
          EvictMissingBelow(n);
        } else {
          NoteGap(highest + 1, n, now);
        }
      }
      highest := n;
      if isKeyframe {
        InsertKeyframe(n);
      }
      AgeOut();
    }

    /** The numbers to request now, as 16-bit wire numbers. */
    method BuildFeedback(now: int) returns (wire: seq<u16>)
      requires Valid()
      modifies this
      ensures Valid()
      ensures var r := Feedback(cfg, old(Abs()), now);
              Abs() == r.g && wire == OnWire(r.out) && log == old(log) + Requests(r.out, now, old(rttMs))
    {
      hide Inv, Ledger, Tally, NoneAtZero, Sorted, Ordered, Ascending;
      hide EvictOld, Sweep, Decide, DeleteAll, Requests, OnWire;
      ghost var g0 := Abs();
      InvParts(cfg, g0);
      FeedbackTally(cfg, g0, now, log);
      EvictOldKeeps(cfg, g0);
      AgeOut();
      KeysHeld(missing);
      var out, toDelete := Visit(now);
      Discard(toDelete);
      log := log + Requests(out, now, rttMs);
      wire := OnWire(out);
    }

    method Discard(toDelete: seq<int>)
      modifies this`missing
      ensures missing == DeleteAll(old(missing), toDelete)
    {
      var i := 0;
      while i < |toDelete|
        invariant 0 <= i <= |toDelete|
        invariant DeleteAll(missing, toDelete[i..]) == DeleteAll(old(missing), toDelete)
      {
        assert toDelete[i..][1..] == toDelete[i + 1..];
        missing := missing.Delete(toDelete[i]);
        i := i + 1;
      }
    }

    /** The forEach over the entries; they are updated in place, deletion waits. */
    method Visit(now: int) returns (out: seq<int>, toDelete: seq<int>)
      requires forall i :: 0 <= i < |missing.keys| ==> missing.keys[i] in missing.vals
      modifies this`missing
      ensures var s := Sweep(cfg, old(missing.keys), old(missing.vals), now, rttMs, highest);
              missing == Map(old(missing.keys), s.vals) && out == s.out && toDelete == s.drops
    {
      out, toDelete := [], [];
      var keys := missing.keys;
      ghost var goal := Sweep(cfg, keys, missing.vals, now, rttMs, highest);
      var i := 0;
      while i < |keys|
        invariant 0 <= i <= |keys| && missing.keys == keys
        invariant forall j :: 0 <= j < |keys| ==> keys[j] in missing.vals
        invariant var r := Sweep(cfg, keys[i..], missing.vals, now, rttMs, highest);
                  Swept(r.vals, out + r.out, toDelete + r.drops) == goal
        decreases |keys| - i
      {
        var k := keys[i];
        assert keys[i..][1..] == keys[i + 1..];
        ghost var r := Sweep(cfg, keys[i..], missing.vals, now, rttMs, highest);
        match Decide(cfg, missing.vals[k], now, rttMs, highest) {
          case Hold =>
          case Send(info) =>
            assert out + r.out == (out + [k]) + r.out[1..];
            out := out + [k];
            missing := Map(keys, missing.vals[k := info]);
          case Drop =>
            assert toDelete + r.drops == (toDelete + [k]) + r.drops[1..];
            toDelete := toDelete + [k];
        }
        i := i + 1;
      }
      assert keys[|keys|..] == [];
    }

    method SetRtt(ms: int)
      requires Valid()
      modifies this`rttMs
      ensures Valid() && Abs() == UpdateRtt(old(Abs()), ms) && log == old(log)
      ensures rttMs == if ms > 20 then ms else 20
    {
      FewerLedger(cfg, Abs(), UpdateRtt(Abs(), ms), log);
      rttMs := if ms > 20 then ms else 20;
    }

    method AcknowledgeKeyframeRequested()
      requires Valid()
      modifies this`needKeyframe
      ensures Valid() && Abs() == old(Abs()).(needKeyframe := false) && log == old(log)
    {
      FewerLedger(cfg, Abs(), Abs().(needKeyframe := false), log);
      needKeyframe := false;
    }
  }

  lemma AddKeyframeSteps(arr: seq<int>, n: int)
    ensures arr != [] && arr[0] < n ==> AddKeyframe(arr, n) == [arr[0]] + AddKeyframe(arr[1..], n)
    ensures arr == [] || arr[0] > n ==> AddKeyframe(arr, n) == [n] + arr
    ensures arr != [] && arr[0] == n ==> AddKeyframe(arr, n) == arr
  {
  }

  lemma TailPlaced(arr: seq<int>, n: int, lo: nat)
    requires 0 < lo <= |arr|
    ensures arr == [arr[0]] + arr[1..]
    ensures arr[..lo] + [n] + arr[lo..] == [arr[0]] + (arr[1..][..lo - 1] + [n] + arr[1..][lo - 1..])
    ensures lo < |arr| ==> arr[1..][lo - 1] == arr[lo]
  {
  }

  /** Where the binary search ends is where the keyframe goes. */
  lemma {:induction false} AddKeyframeAt(arr: seq<int>, n: int, lo: nat)
    requires lo <= |arr| && (forall i :: 0 <= i < lo ==> arr[i] < n) && (forall i :: lo <= i < |arr| ==> arr[i] >= n)
    ensures AddKeyframe(arr, n) == if lo < |arr| && arr[lo] == n then arr else arr[..lo] + [n] + arr[lo..]
    decreases |arr|
  {
    AddKeyframeSteps(arr, n);
    hide AddKeyframe;
    if lo == 0 {
      assert arr[..0] + [n] + arr[0..] == [n] + arr;
    } else {
      AddKeyframeAt(arr[1..], n, lo - 1);
      TailPlaced(arr, n, lo);
    }
  }
}
