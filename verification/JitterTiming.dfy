/**
 When the reordering buffer of src/jitter_buffer.js plays, waits and gives up: what a run of the timer and the
 arrival of a packet must do, stated on the fields of the state and the numbers in the source.
 */
module JitterTiming {
  import opened JitterBufferModel
  import opened SeqNum

  // ------------------------------------------------------------------
  // A run of the timer
  // ------------------------------------------------------------------

  /** The packet held under `e` has waited long enough for what lies before it to be given up: the latency, and
      with a known round-trip time also two round trips and the safety margin. */
  ghost predicate Ripe<P>(st: State<P>, now: real, e: u16) {
    && e in st.buffer
    && now - st.buffer[e].insertTime >= st.latency
    && (st.rttMs > 0.0 ==> now - st.buffer[e].insertTime >= 2.0 * st.rttMs + st.rttSafetyMs)
  }

  /** The first packet event from `i` on is the packet held under its number, and that one was ripe. */
  ghost predicate EndsRipe<P>(st: State<P>, now: real, events: seq<Event<P>>, i: nat) {
    exists j :: i <= j < |events| && events[j].Packet? && (forall k :: i <= k < j ==> !events[k].Packet?)
      && Ripe(st, now, events[j].num) && events[j].pkt == st.buffer[events[j].num].pkt
  }

  /** Whatever is reported lost lies before a packet that was ripe, and is followed by that packet. */
  ghost predicate GapsRipe<P>(st: State<P>, now: real, events: seq<Event<P>>) {
    forall i :: 0 <= i < |events| && !events[i].Packet? ==> EndsRipe(st, now, events, i)
  }

  ghost function PacketCount<P>(events: seq<Event<P>>): nat {
    if events == [] then 0 else (if events[0].Packet? then 1 else 0) + PacketCount(events[1..])
  }

  /** No held packet is nearer than `e`. */
  ghost predicate Nearest<P>(st: State<P>, e: u16) {
    && e in st.buffer && st.nextSeq != -1
    && forall j :: j in st.buffer ==> (e - st.nextSeq) % 0x1_0000 <= (j - st.nextSeq) % 0x1_0000
  }

  /** Nothing more can leave at this time: nothing is held, or the next number is missing and the nearest packet
      held is not ripe. */
  ghost predicate Stopped<P>(st: State<P>, now: real) {
    st.buffer == map[] || (st.nextSeq !in st.buffer && exists e :: Nearest(st, e) && !Ripe(st, now, e))
  }

  /** What is still held is held as it was. */
  ghost predicate Kept<P>(st: State<P>, r: State<P>) {
    && SameConfig(r, st) && r.oldStreak == st.oldStreak
    && forall k :: k in r.buffer ==> k in st.buffer && r.buffer[k] == st.buffer[k]
  }

  lemma RipeBefore<P>(st: State<P>, r: State<P>, now: real, events: seq<Event<P>>)
    requires Kept(st, r) && GapsRipe(r, now, events)
    ensures GapsRipe(st, now, events)
  {
    forall i | 0 <= i < |events| && !events[i].Packet? ensures EndsRipe(st, now, events, i) {
      assert EndsRipe(r, now, events, i);
      var j :| i <= j < |events| && events[j].Packet? && (forall k :: i <= k < j ==> !events[k].Packet?)
        && Ripe(r, now, events[j].num) && events[j].pkt == r.buffer[events[j].num].pkt;
      assert Ripe(st, now, events[j].num);
    }
  }

  /** One more packet in front. */
  lemma RipeEmit<P>(st: State<P>, now: real, p: Event<P>, events: seq<Event<P>>)
    requires p.Packet? && GapsRipe(st, now, events)
    ensures GapsRipe(st, now, [p] + events) && PacketCount([p] + events) == 1 + PacketCount(events)
  {
    var longer := [p] + events;
    assert longer[1..] == events;
    forall i | 0 <= i < |longer| && !longer[i].Packet? ensures EndsRipe(st, now, longer, i) {
      assert EndsRipe(st, now, events, i - 1);
      var j :| i - 1 <= j < |events| && events[j].Packet? && (forall k :: i - 1 <= k < j ==> !events[k].Packet?)
        && Ripe(st, now, events[j].num) && events[j].pkt == st.buffer[events[j].num].pkt;
      assert longer[j + 1] == events[j];
    }
  }

  /** A gap in front of its ripe packet. */
  lemma RipeSkip<P>(st: State<P>, now: real, gap: seq<Event<P>>, events: seq<Event<P>>)
    requires (forall i :: 0 <= i < |gap| ==> !gap[i].Packet?) && GapsRipe(st, now, events)
    requires events != [] && events[0].Packet? && Ripe(st, now, events[0].num)
    requires events[0].pkt == st.buffer[events[0].num].pkt
    ensures GapsRipe(st, now, gap + events)
  {
    var longer := gap + events;
    forall i | 0 <= i < |longer| && !longer[i].Packet? ensures EndsRipe(st, now, longer, i) {
      if i < |gap| {
        assert longer[|gap|] == events[0];
      } else {
        assert EndsRipe(st, now, events, i - |gap|);
        var j :| i - |gap| <= j < |events| && events[j].Packet?
          && (forall k :: i - |gap| <= k < j ==> !events[k].Packet?)
          && Ripe(st, now, events[j].num) && events[j].pkt == st.buffer[events[j].num].pkt;
        assert longer[|gap| + j] == events[j];
      }
    }
  }

  lemma {:induction false} NoPackets<P>(gap: seq<Event<P>>, events: seq<Event<P>>)
    requires forall i :: 0 <= i < |gap| ==> !gap[i].Packet?
    ensures PacketCount(gap + events) == PacketCount(events)
    decreases |gap|
  {
    if gap == [] {
      assert gap + events == events;
    } else {
      assert (gap + events)[1..] == gap[1..] + events;
      NoPackets(gap[1..], events);
    }
  }

  lemma {:induction false} LossesOnly<P>(from: u16, n: nat)
    ensures |Losses<P>(from, n)| == n && forall i :: 0 <= i < n ==> Losses<P>(from, n)[i].Loss?
    decreases n
  {
    if n > 0 {
      LossesOnly<P>(Next(from), n - 1);
    }
  }

  lemma GapOnly<P>(st: State<P>, e: u16)
    requires 0 <= st.nextSeq < 0x1_0000
    ensures forall i :: 0 <= i < |DeclareGapAndSkip(st, e).events| ==> !DeclareGapAndSkip(st, e).events[i].Packet?
    ensures DeclareGapAndSkip(st, e).st == st.(nextSeq := e)
  {
    var gapLen := SeqDiff(e, st.nextSeq);
    if 0 <= gapLen <= MAX_LOSS_EVENTS_PER_GAP {
      LossesOnly<P>(st.nextSeq, gapLen);
    } else {
      LossesOnly<P>(st.nextSeq, MAX_LOSS_EVENTS_PER_GAP);
    }
  }

  lemma NearestIs<P>(st: State<P>)
    requires WellFormed(st) && st.buffer != map[]
    ensures Nearest(st, Earliest(st.buffer, st.nextSeq))
  {
    EarliestExists(st.buffer, st.nextSeq);
    var e := Earliest(st.buffer, st.nextSeq);
    assert forall j: u16 :: Forward(st.nextSeq, j) == (j - st.nextSeq) % 0x1_0000;
  }

  /** The flush loop at this time. */
  ghost predicate FlushedRight<P>(st: State<P>, now: real, budget: nat, r: Step<P>) {
    && GapsRipe(st, now, r.events) && Kept(st, r.st)
    && PacketCount(r.events) <= budget
    && (PacketCount(r.events) < budget ==> Stopped(r.st, now))
    && (r.st.emittedAny <==> st.emittedAny || PacketCount(r.events) > 0)
    && (budget > 0 && st.nextSeq in st.buffer ==>
          r.events != [] && r.events[0] == Packet(st.nextSeq, st.buffer[st.nextSeq].pkt))
  }

  lemma {:induction false} FlushRight<P>(st: State<P>, now: real, budget: nat)
    requires WellFormed(st)
    ensures FlushedRight(st, now, budget, Flush(st, now, budget))
    decreases budget, if st.nextSeq in st.buffer then 0 else 1
  {
    hide GapsRipe, Stopped;
    if budget == 0 {
      assert GapsRipe(st, now, []) by { NoGaps(st, now); }
    } else if st.nextSeq in st.buffer {
      var p := Packet(st.nextSeq, st.buffer[st.nextSeq].pkt);
      FlushRight(EmitNext(st), now, budget - 1);
      var rest := Flush(EmitNext(st), now, budget - 1);
      RipeBefore(st, EmitNext(st), now, rest.events);
      RipeEmit(st, now, p, rest.events);
    } else if st.buffer == map[] {
      NoGaps(st, now);
    } else {
      var e := Earliest(st.buffer, st.nextSeq);
      NearestIs(st);
      if now - st.buffer[e].insertTime >= EffectiveLatency(st) {
        var skip := DeclareGapAndSkip(st, e);
        GapOnly(st, e);
        FlushRight(skip.st, now, budget);
        var rest := Flush(skip.st, now, budget);
        RipeBefore(st, skip.st, now, rest.events);
        RipeSkip(st, now, skip.events, rest.events);
        NoPackets(skip.events, rest.events);
      } else {
        NoGaps(st, now);
        NotRipe(st, now, e);
      }
    }
  }

  lemma NoGaps<P>(st: State<P>, now: real)
    ensures GapsRipe(st, now, [])
    ensures st.buffer == map[] ==> Stopped(st, now)
  {
  }

  lemma NotRipe<P>(st: State<P>, now: real, e: u16)
    requires Nearest(st, e) && st.nextSeq !in st.buffer
    requires now - st.buffer[e].insertTime < EffectiveLatency(st)
    ensures Stopped(st, now)
  {
    assert !Ripe(st, now, e);
  }

  /** A run of the timer at `now`: a gap is given up only before a packet that waited the latency, and two round
      trips and the margin when the round-trip time is known; at most max(64, maxSize) packets leave; and when
      fewer do, nothing that could leave is left. */
  lemma TickRight<P>(st: State<P>, now: real)
    requires WellFormed(st)
    ensures var r := Tick(st, now);
            var budget := if st.maxSize > 64 then st.maxSize else 64;
            && GapsRipe(st, now, r.events) && Kept(st, r.st)
            && PacketCount(r.events) <= budget
            && (PacketCount(r.events) < budget ==> Stopped(r.st, now))
            && (r.st.emittedAny <==> st.emittedAny || PacketCount(r.events) > 0)
            && (st.nextSeq in st.buffer ==>
                  r.events != [] && r.events[0] == Packet(st.nextSeq, st.buffer[st.nextSeq].pkt))
  {
    FlushRight(st, now, EmitBudget(st));
  }

  // ------------------------------------------------------------------
  // The arrival of a packet
  // ------------------------------------------------------------------

  /** The gap up to `e`, then the timer's work from there. */
  ghost predicate Skips<P>(held: State<P>, e: u16, now: real, r: Step<P>)
    requires WellFormed(held) && held.nextSeq != -1
  {
    var after := Tick(held.(nextSeq := e), now);
    && r.st == after.st && |after.events| <= |r.events|
    && var n := |r.events| - |after.events|;
       GapTo(held, e, r.events[..n]) && r.events[n..] == after.events
  }

  /** Storing in `st`, whose position and streak are set: within the capacity nothing else happens; above it the
      gap before the nearest packet is given up whatever its age, and the timer's work is done at once. */
  ghost predicate Stores<P>(st: State<P>, s: u16, pkt: P, now: real, flushNow: real, r: Step<P>)
    requires WellFormed(st) && st.nextSeq != -1
  {
    var held := st.(buffer := st.buffer[s := Entry(pkt, now)]);
    if |held.buffer| <= st.maxSize then r == Step(held, [])
    else
      exists e :: Nearest(held, e) && Skips(held, e, flushNow, r)
  }

  /** The losses from the next number up to `e`, at most 512 of them, and then the gap in one event. */
  ghost predicate GapTo<P>(st: State<P>, e: u16, gap: seq<Event<P>>) {
    var n := (e - st.nextSeq) % 0x1_0000;
    && (forall i :: 0 <= i < |gap| && i < 512 ==> gap[i] == Loss((st.nextSeq + i) % 0x1_0000))
    && if n <= 512 then |gap| == n
       else |gap| == 513 && gap[512] == Gap((st.nextSeq) % 0x1_0000, e, n)
  }

  lemma {:induction false} LossAt<P>(from: u16, n: nat, i: nat)
    requires i < n
    ensures |Losses<P>(from, n)| == n && Losses<P>(from, n)[i] == Loss((from + i) % 0x1_0000)
    decreases n
  {
    LossesOnly<P>(from, n);
    if i > 0 {
      LossAt<P>(Next(from), n - 1, i - 1);
    }
  }

  lemma GapIs<P>(st: State<P>, e: u16)
    requires 0 <= st.nextSeq < 0x1_0000 && Forward(st.nextSeq, e) <= 0x8000
    ensures GapTo(st, e, DeclareGapAndSkip(st, e).events)
  {
    var n := Forward(st.nextSeq, e);
    assert n == (e - st.nextSeq) % 0x1_0000;
    var m: nat := if n <= 512 then n else 512;
    LossesOnly<P>(st.nextSeq, m);
    forall i | 0 <= i < m ensures Losses<P>(st.nextSeq, m)[i] == Loss((st.nextSeq + i) % 0x1_0000) {
      LossAt<P>(st.nextSeq, m, i);
    }
  }

  lemma StoreRight<P>(st: State<P>, s: u16, pkt: P, now: real, flushNow: real)
    requires WellFormed(st) && st.nextSeq != -1 && Chained(st.buffer[s := Entry(pkt, now)], st.nextSeq)
    ensures Stores(st, s, pkt, now, flushNow, Store(st, s, pkt, now, flushNow))
  {
    var held := Insert(st, s, pkt, now);
    if |held.buffer| > st.maxSize {
      var e := Earliest(held.buffer, held.nextSeq);
      NearestIs(held);
      EarliestExists(held.buffer, held.nextSeq);
      EarliestNear(held.buffer, held.nextSeq, e);
      GapIs(held, e);
      GapOnly(held, e);
    }
  }

  /** Which of the five things a packet's number makes of it, by how far it lies behind the next number. */
  lemma PushRight<P>(st: State<P>, s: u16, pkt: P, now: real, flushNow: real)
    requires Inv(st)
    ensures var r := Push(st, s, pkt, now, flushNow);
            var behind := (st.nextSeq - s) % 0x1_0000;
            if st.nextSeq == -1 then
              r == Step(st.(buffer := map[s := Entry(pkt, now)], nextSeq := s, oldStreak := 0), [])
            else if 128 < behind <= 0x8000 && st.oldStreak < 7 then
              r == Step(st.(oldStreak := st.oldStreak + 1), [])
            else if 128 < behind <= 0x8000 then
              r == Step(st.(buffer := map[s := Entry(pkt, now)], nextSeq := s, oldStreak := 0, emittedAny := false),
                        [Resync(s)])
            else if 0 < behind <= 128 && st.emittedAny then
              r == Step(st.(oldStreak := 0), [])
            else if 0 < behind <= 128 then
              Stores(st.(oldStreak := 0, nextSeq := s), s, pkt, now, flushNow, r)
            else
              Stores(st.(oldStreak := 0), s, pkt, now, flushNow, r)
  {
    hide Stores, Flush;
    assert map[][s := Entry(pkt, now)] == map[s := Entry(pkt, now)];
    var st1 := Started(st, s);
    assert Forward(s, st1.nextSeq) == (st1.nextSeq - s) % 0x1_0000;
    var behind := SeqDiff(st1.nextSeq, s);
    if 0 < behind <= 128 && !st1.emittedAny {
      ChainedRewind(st1.buffer, st1.nextSeq, s);
      ChainedInsert(st1.buffer, s, s, Entry(pkt, now));
      StoreRight(st1.(oldStreak := 0, nextSeq := s), s, pkt, now, flushNow);
    } else if behind <= 0 && st.nextSeq != -1 {
      ChainedInsert(st1.buffer, st1.nextSeq, s, Entry(pkt, now));
      StoreRight(st1.(oldStreak := 0), s, pkt, now, flushNow);
    }
  }

  /** A packet that comes while its number is waited for is played by the next run of the timer, and before it
      nothing is reported lost. */
  lemma LateFills<P>(st: State<P>, pkt: P, now: real, flushNow: real, later: real)
    requires Inv(st) && st.nextSeq != -1 && st.nextSeq !in st.buffer && |st.buffer| < st.maxSize
    ensures var r := Push(st, st.nextSeq, pkt, now, flushNow);
            && r.events == [] && WellFormed(r.st)
            && var t := Tick(r.st, later);
               t.events != [] && t.events[0] == Packet(st.nextSeq, pkt)
  {
    PushRight(st, st.nextSeq, pkt, now, flushNow);
    var r := Push(st, st.nextSeq, pkt, now, flushNow);
    assert r.st.buffer.Keys == st.buffer.Keys + {st.nextSeq};
    TickRight(r.st, later);
  }
}
