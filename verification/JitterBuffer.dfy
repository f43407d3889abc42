/**
 The reordering buffer of src/jitter_buffer.js.

 `State` is what the object holds, `Push`, `Tick` and their helpers are the transitions with the
 events they emit, and class `JitterBuffer` performs the same transitions in place. The theorems
 are about `Run`: every state and every event log that any sequence of calls can produce.
 */
module JitterBufferModel {
  import opened Options
  import opened SeqNum

  const RESYNC_THRESHOLD := 8
  const MAX_LOSS_EVENTS_PER_GAP := 512

  datatype Entry<P> = Entry(pkt: P, insertTime: real)

  /** The four events the source emits, and a mark for a call of reset(). */
  datatype Event<P> =
    | Packet(num: u16, pkt: P)
    | Loss(num: u16)
    | Gap(from: u16, to: u16, length: int)
    | Resync(num: u16)
    | Restart

  datatype State<P> = State(
    buffer: map<u16, Entry<P>>,
    nextSeq: int,        // -1 before the first packet
    oldStreak: nat,
    emittedAny: bool,
    maxSize: nat,
    latency: real,
    rttMs: real,
    rttSafetyMs: real)

  datatype Step<P> = Step(st: State<P>, events: seq<Event<P>>)

  // ------------------------------------------------------------------
  // Transitions
  // ------------------------------------------------------------------

  /** Nothing is buffered before the first packet fixed a position. */
  ghost predicate WellFormed<P>(st: State<P>) {
    && -1 <= st.nextSeq < 0x1_0000
    && (st.nextSeq == -1 ==> st.buffer == map[])
    && st.maxSize > 0
  }

  function EffectiveLatency<P>(st: State<P>): real {
    if st.rttMs > 0.0 then
      var adaptive := 2.0 * st.rttMs + st.rttSafetyMs;
      if st.latency > adaptive then st.latency else adaptive
    else st.latency
  }

  /** `k` is the buffered number closest ahead of `next`. */
  ghost predicate IsEarliest<P>(buffer: map<u16, Entry<P>>, next: u16, k: u16) {
    k in buffer && forall j :: j in buffer ==> Forward(next, k) <= Forward(next, j)
  }

  lemma EarliestExists<P>(buffer: map<u16, Entry<P>>, next: u16)
    requires buffer != map[]
    ensures exists k :: IsEarliest(buffer, next, k)
  {
    var k :| k in buffer;
    var rest := buffer - {k};
    assert forall j :: j in buffer ==> j == k || j in rest;
    if rest == map[] {
      assert IsEarliest(buffer, next, k);
    } else {
      assert |rest| < |buffer| by {
        assert rest.Keys == buffer.Keys - {k};
      }
      EarliestExists(rest, next);
      var e :| IsEarliest(rest, next, e);
      assert IsEarliest(buffer, next, if Forward(next, k) <= Forward(next, e) then k else e);
    }
  }

  ghost function Earliest<P>(buffer: map<u16, Entry<P>>, next: u16): u16
    requires buffer != map[]
  {
    EarliestExists(buffer, next);
    var k :| IsEarliest(buffer, next, k);
    k
  }

  function Losses<P>(from: u16, n: nat): seq<Event<P>>
    decreases n
  {
    if n == 0 then [] else [Loss(from)] + Losses(Next(from), n - 1)
  }

  function DeclareGapAndSkip<P>(st: State<P>, gapEnd: u16): Step<P>
    requires 0 <= st.nextSeq < 0x1_0000
  {
    var gapLen := SeqDiff(gapEnd, st.nextSeq);
    var jumped := st.(nextSeq := gapEnd);
    if gapLen < 0 then
      Step(jumped, [])  // the branch the source marks as not expected
    else if gapLen <= MAX_LOSS_EVENTS_PER_GAP then
      Step(jumped, Losses(st.nextSeq, gapLen))
    else
      Step(jumped, Losses(st.nextSeq, MAX_LOSS_EVENTS_PER_GAP) + [Gap(st.nextSeq, gapEnd, gapLen)])
  }

  /** One packet leaves in order. */
  function EmitNext<P>(st: State<P>): State<P>
    requires 0 <= st.nextSeq < 0x1_0000 && st.nextSeq in st.buffer
  {
    st.(buffer := st.buffer - {st.nextSeq}, nextSeq := Next(st.nextSeq), emittedAny := true)
  }

  /** The flush loop, with `budget` emissions left. */
  ghost function Flush<P>(st: State<P>, now: real, budget: nat): Step<P>
    requires WellFormed(st)
    decreases budget, if st.nextSeq in st.buffer then 0 else 1
  {
    if budget == 0 then
      Step(st, [])
    else if st.nextSeq in st.buffer then
      var rest := Flush(EmitNext(st), now, budget - 1);
      Step(rest.st, [Packet(st.nextSeq, st.buffer[st.nextSeq].pkt)] + rest.events)
    else if st.buffer == map[] then
      Step(st, [])
    else
      var e := Earliest(st.buffer, st.nextSeq);
      if now - st.buffer[e].insertTime >= EffectiveLatency(st) then
        var skip := DeclareGapAndSkip(st, e);
        var rest := Flush(skip.st, now, budget);
        Step(rest.st, skip.events + rest.events)
      else
        Step(st, [])
  }

  function EmitBudget<P>(st: State<P>): nat {
    if st.maxSize > 64 then st.maxSize else 64
  }

  ghost function Tick<P>(st: State<P>, now: real): Step<P>
    requires WellFormed(st)
  {
    Flush(st, now, EmitBudget(st))
  }

  /** Over capacity: skip to the earliest buffered packet whatever its age. */
  ghost function ForceAdvance<P>(st: State<P>, now: real): Step<P>
    requires WellFormed(st)
  {
    if st.buffer == map[] then Step(st, [])
    else
      var skip := DeclareGapAndSkip(st, Earliest(st.buffer, st.nextSeq));
      var rest := Tick(skip.st, now);
      Step(rest.st, skip.events + rest.events)
  }

  function Insert<P>(st: State<P>, s: u16, pkt: P, now: real): State<P> {
    st.(buffer := st.buffer[s := Entry(pkt, now)])
  }

  /** `now` stamps the entry, `flushNow` is the clock a forced flush reads afterwards. */
  ghost function Store<P>(st: State<P>, s: u16, pkt: P, now: real, flushNow: real): Step<P>
    requires WellFormed(st) && st.nextSeq != -1
  {
    var stored := Insert(st, s, pkt, now);
    if |stored.buffer| > st.maxSize then ForceAdvance(stored, flushNow) else Step(stored, [])
  }

  function ResyncTo<P>(st: State<P>, s: u16): State<P> {
    st.(buffer := map[], nextSeq := s, oldStreak := 0, emittedAny := false)
  }

  /** The first packet fixes the position. */
  function Started<P>(st: State<P>, s: u16): State<P> {
    if st.nextSeq == -1 then st.(nextSeq := s) else st
  }

  ghost function Push<P>(st0: State<P>, s: u16, pkt: P, now: real, flushNow: real): Step<P>
    requires WellFormed(st0)
  {
    var st := Started(st0, s);
    var behind := SeqDiff(st.nextSeq, s);
    if behind > 128 then
      var counted := st.(oldStreak := st.oldStreak + 1);
      if counted.oldStreak >= RESYNC_THRESHOLD then
        var stored := Store(ResyncTo(counted, s), s, pkt, now, flushNow);
        Step(stored.st, [Resync(s)] + stored.events)
      else
        Step(counted, [])
    else
      var current := st.(oldStreak := 0);
      if behind > 0 then
        if current.emittedAny then Step(current, [])
        else Store(current.(nextSeq := s), s, pkt, now, flushNow)
      else
        Store(current, s, pkt, now, flushNow)
  }

  function Reset<P>(st: State<P>): State<P> {
    st.(buffer := map[], nextSeq := -1, oldStreak := 0, emittedAny := false)
  }

  // ------------------------------------------------------------------
  // The invariant of every reachable state
  // ------------------------------------------------------------------

  /** Every buffered packet lies at most 0x8000 ahead of the play-out position, or of another
      buffered packet that will be played before it. */
  ghost predicate Chained<P>(buffer: map<u16, Entry<P>>, next: u16) {
    forall k :: k in buffer ==> Reached(buffer, next, k)
  }

  ghost predicate Reached<P>(buffer: map<u16, Entry<P>>, next: u16, k: u16) {
    || Forward(next, k) <= 0x8000
    || exists j :: j in buffer && Forward(next, k) - 0x8000 <= Forward(next, j) < Forward(next, k)
  }

  /** Until something is emitted, the packet at the play-out position is held. */
  ghost predicate Anchored<P>(st: State<P>) {
    st.nextSeq != -1 && !st.emittedAny ==> st.nextSeq in st.buffer
  }

  ghost predicate Sound<P>(st: State<P>) {
    && WellFormed(st)
    && (st.nextSeq != -1 ==> Chained(st.buffer, st.nextSeq))
    && (st.nextSeq == -1 ==> !st.emittedAny)
    && Anchored(st)
  }

  ghost predicate Inv<P>(st: State<P>) {
    Sound(st) && |st.buffer| <= st.maxSize
  }

  lemma ChainedInsert<P>(buffer: map<u16, Entry<P>>, next: u16, s: u16, e: Entry<P>)
    requires Chained(buffer, next) && Forward(next, s) <= 0x8000
    ensures Chained(buffer[s := e], next)
  {
    var larger := buffer[s := e];
    forall k | k in larger ensures Reached(larger, next, k) {
      if k != s && Forward(next, k) > 0x8000 {
        assert Reached(buffer, next, k);
        var j :| j in buffer && Forward(next, k) - 0x8000 <= Forward(next, j) < Forward(next, k);
        assert j in larger;
      }
    }
  }

  lemma ChainedEmit<P>(buffer: map<u16, Entry<P>>, next: u16)
    requires Chained(buffer, next)
    ensures Chained(buffer - {next}, Next(next))
  {
    var rest, next' := buffer - {next}, Next(next);
    forall k | k in rest ensures Reached(rest, next', k) {
      assert Forward(next', k) == Forward(next, k) - 1;
      assert Reached(buffer, next, k);
      if Forward(next, k) > 0x8000 {
        var j :| j in buffer && Forward(next, k) - 0x8000 <= Forward(next, j) < Forward(next, k);
        if j != next {
          assert j in rest && Forward(next', j) == Forward(next, j) - 1;
        }
      }
    }
  }

  /** The earliest packet is never more than 0x8000 ahead: the gap is never read as negative. */
  lemma EarliestNear<P>(buffer: map<u16, Entry<P>>, next: u16, e: u16)
    requires Chained(buffer, next) && IsEarliest(buffer, next, e)
    ensures Forward(next, e) <= 0x8000
    ensures SeqDiff(e, next) == Forward(next, e) >= 0
  {
    assert Reached(buffer, next, e);
  }

  lemma ChainedSkip<P>(buffer: map<u16, Entry<P>>, next: u16, e: u16)
    requires Chained(buffer, next) && IsEarliest(buffer, next, e)
    ensures Chained(buffer, e)
  {
    forall k | k in buffer ensures Reached(buffer, e, k) {
      assert Forward(e, k) == Forward(next, k) - Forward(next, e);
      assert Reached(buffer, next, k);
      if Forward(next, k) > 0x8000 {
        var j :| j in buffer && Forward(next, k) - 0x8000 <= Forward(next, j) < Forward(next, k);
        assert Forward(e, j) == Forward(next, j) - Forward(next, e);
      }
    }
  }

  /** Moving the start back by at most 128 keeps the chain: the old start is still held. */
  lemma ChainedRewind<P>(buffer: map<u16, Entry<P>>, next: u16, s: u16)
    requires Chained(buffer, next) && next in buffer && 0 < SeqDiff(next, s) <= 128
    ensures Chained(buffer, s)
  {
    var b := SeqDiff(next, s);
    assert forall k: u16 ::
      Forward(s, k) ==
        if Forward(next, k) + b < 0x1_0000 then Forward(next, k) + b else Forward(next, k) + b - 0x1_0000;
    forall k | k in buffer ensures Reached(buffer, s, k) {
      assert Reached(buffer, next, k);
      if Forward(s, k) > 0x8000 {
        if Forward(next, k) <= 0x8000 {
          assert Forward(s, next) == b;
        } else {
          var j :| j in buffer && Forward(next, k) - 0x8000 <= Forward(next, j) < Forward(next, k);
          assert Forward(s, j) == Forward(next, j) + b;
        }
      }
    }
  }

  // ------------------------------------------------------------------
  // What the emitted events look like
  // ------------------------------------------------------------------

  /** An observer of the events. `At(pos, lost)`: everything before unbounded position `pos` was
      played or reported lost, the last `lost` events being losses of the gap now declared. */
  datatype Tracker = Idle | At(pos: nat, lost: nat) | Broken

  /** Play-out starts with a packet; then packets and losses take consecutive numbers; a gap event
      comes right after MAX_LOSS_EVENTS_PER_GAP losses that start where the gap starts. */
  function Observe<P>(t: Tracker, e: Event<P>): Tracker {
    match (t, e)
    case (Broken, _) => Broken
    case (_, Resync(_)) => Idle
    case (_, Restart) => Idle
    case (Idle, Packet(n, _)) => At(n + 1, 0)
    case (At(pos, _), Packet(n, _)) => if Wrap(pos) == n then At(pos + 1, 0) else Broken
    case (At(pos, lost), Loss(n)) =>
      if Wrap(pos) == n && lost < MAX_LOSS_EVENTS_PER_GAP then At(pos + 1, lost + 1) else Broken
    case (At(pos, lost), Gap(from, to, length)) =>
      var start := pos - MAX_LOSS_EVENTS_PER_GAP;
      if && lost == MAX_LOSS_EVENTS_PER_GAP && 0 <= start
         && MAX_LOSS_EVENTS_PER_GAP < length <= 0x8000
         && Wrap(start) == from && Wrap(start + length) == to
      then At(start + length, MAX_LOSS_EVENTS_PER_GAP + 1)  // only a packet may follow
      else Broken
    case _ => Broken
  }

  function Watch<P>(t: Tracker, events: seq<Event<P>>): Tracker
    decreases |events|
  {
    if events == [] then t else Watch(Observe(t, events[0]), events[1..])
  }

  lemma {:induction false} WatchAppend<P>(t: Tracker, a: seq<Event<P>>, b: seq<Event<P>>)
    ensures Watch(t, a + b) == Watch(Watch(t, a), b)
    decreases |a|
  {
    if a == [] {
      assert a + b == b;
    } else {
      assert (a + b)[1..] == a[1..] + b;
      WatchAppend(Observe(t, a[0]), a[1..], b);
    }
  }

  lemma {:induction false} WatchLosses<P>(pos: nat, lost: nat, n: nat)
    requires lost + n <= MAX_LOSS_EVENTS_PER_GAP
    ensures Watch(At(pos, lost), Losses<P>(Wrap(pos), n)) == At(pos + n, lost + n)
    decreases n
  {
    if n > 0 {
      WrapForward(pos, 0);
      var e: Event<P>, rest := Loss(Wrap(pos)), Losses<P>(Wrap(pos + 1), n - 1);
      assert ([e] + rest)[1..] == rest;
      WatchLosses<P>(pos + 1, lost + 1, n - 1);
    }
  }

  /** The observer stands where the buffer stands. */
  ghost predicate Agrees<P>(st: State<P>, t: Tracker) {
    && t != Broken
    && (t.At? <==> st.emittedAny)
    && (t.At? ==> Wrap(t.pos) == st.nextSeq && (t.lost > 0 ==> st.nextSeq in st.buffer))
  }

  ghost predicate SameConfig<P>(a: State<P>, b: State<P>) {
    && a.maxSize == b.maxSize && a.latency == b.latency
    && a.rttMs == b.rttMs && a.rttSafetyMs == b.rttSafetyMs
  }

  /** What one declared gap looks like to the observer: it moves by the length of the gap. */
  lemma GapEvents<P>(st: State<P>, gapEnd: u16, pos: nat)
    requires 0 <= st.nextSeq < 0x1_0000 && Wrap(pos) == st.nextSeq
    requires SeqDiff(gapEnd, st.nextSeq) == Forward(st.nextSeq, gapEnd)
    ensures var t := Watch(At(pos, 0), DeclareGapAndSkip(st, gapEnd).events);
            t.At? && t.pos == pos + Forward(st.nextSeq, gapEnd)
  {
    var gapLen := SeqDiff(gapEnd, st.nextSeq);
    var n := if gapLen <= MAX_LOSS_EVENTS_PER_GAP then gapLen else MAX_LOSS_EVENTS_PER_GAP;
    WatchLosses<P>(pos, 0, n);
    if gapLen > MAX_LOSS_EVENTS_PER_GAP {
      var gap: Event<P> := Gap(st.nextSeq, gapEnd, gapLen);
      WatchAppend(At(pos, 0), Losses(st.nextSeq, n), [gap]);
      WrapForward(pos, gapEnd);
      var at := At(pos + n, n);
      assert Observe(at, gap) == At(pos + gapLen, n + 1);
    }
  }

  lemma GapSound<P>(st: State<P>, t: Tracker)
    requires Sound(st) && st.buffer != map[] && Agrees(st, t)
    ensures var e := Earliest(st.buffer, st.nextSeq);
            var skip := DeclareGapAndSkip(st, e);
            && SeqDiff(e, st.nextSeq) >= 0
            && skip.st == st.(nextSeq := e) && e in st.buffer
            && Sound(skip.st)
            && Agrees(skip.st, Watch(t, skip.events))
            && (st.nextSeq in st.buffer ==> skip.events == [])
  {
    EarliestExists(st.buffer, st.nextSeq);
    var e := Earliest(st.buffer, st.nextSeq);
    EarliestNear(st.buffer, st.nextSeq, e);
    ChainedSkip(st.buffer, st.nextSeq, e);
    if st.nextSeq in st.buffer {
      assert Forward(st.nextSeq, e) <= Forward(st.nextSeq, st.nextSeq) == 0;
      assert DeclareGapAndSkip(st, e).events == [];
    } else {
      GapEvents(st, e, t.pos);
      WrapForward(t.pos, e);
    }
  }

  lemma ObserveEmit<P>(st: State<P>, t: Tracker)
    requires Agrees(st, t) && 0 <= st.nextSeq < 0x1_0000 && st.nextSeq in st.buffer
    ensures var t' := Observe(t, Packet(st.nextSeq, st.buffer[st.nextSeq].pkt));
            t'.At? && t'.lost == 0 && Wrap(t'.pos) == Next(st.nextSeq)
  {
    if t.At? {
      WrapForward(t.pos, 0);
    } else {
      WrapForward(st.nextSeq, 0);
    }
  }

  lemma EmitSound<P>(st: State<P>, t: Tracker)
    requires Sound(st) && Agrees(st, t) && st.nextSeq in st.buffer
    ensures Sound(EmitNext(st)) && SameConfig(EmitNext(st), st)
    ensures Agrees(EmitNext(st), Observe(t, Packet(st.nextSeq, st.buffer[st.nextSeq].pkt)))
    ensures |EmitNext(st).buffer| == |st.buffer| - 1
  {
    ChainedEmit(st.buffer, st.nextSeq);
    assert EmitNext(st).buffer.Keys == st.buffer.Keys - {st.nextSeq};
    ObserveEmit(st, t);
  }

  /** What a transition from `st`, observed as `t`, must leave. */
  ghost predicate Keeps<P>(st: State<P>, t: Tracker, r: Step<P>) {
    && Sound(r.st) && Agrees(r.st, Watch(t, r.events)) && SameConfig(r.st, st)
    && |r.st.buffer| <= |st.buffer|
  }

  lemma KeepsCons<P>(st: State<P>, t: Tracker, e: Event<P>, mid: State<P>, rest: Step<P>)
    requires SameConfig(mid, st) && |mid.buffer| <= |st.buffer|
    requires Keeps(mid, Observe(t, e), rest)
    ensures Keeps(st, t, Step(rest.st, [e] + rest.events))
  {
    assert ([e] + rest.events)[1..] == rest.events;
  }

  lemma KeepsAppend<P>(st: State<P>, t: Tracker, skip: Step<P>, rest: Step<P>)
    requires SameConfig(skip.st, st) && |skip.st.buffer| <= |st.buffer|
    requires Keeps(skip.st, Watch(t, skip.events), rest)
    ensures Keeps(st, t, Step(rest.st, skip.events + rest.events))
  {
    WatchAppend(t, skip.events, rest.events);
  }

  lemma {:induction false} FlushSound<P>(st: State<P>, t: Tracker, now: real, budget: nat)
    requires Sound(st) && Agrees(st, t)
    ensures var r := Flush(st, now, budget);
            && Keeps(st, t, r)
            && (budget > 0 && st.nextSeq in st.buffer ==> |r.st.buffer| < |st.buffer|)
    decreases budget, if st.nextSeq in st.buffer then 0 else 1
  {
    if budget == 0 {
    } else if st.nextSeq in st.buffer {
      var e := Packet(st.nextSeq, st.buffer[st.nextSeq].pkt);
      EmitSound(st, t);
      FlushSound(EmitNext(st), Observe(t, e), now, budget - 1);
      KeepsCons(st, t, e, EmitNext(st), Flush(EmitNext(st), now, budget - 1));
    } else if st.buffer == map[] {
    } else {
      var e := Earliest(st.buffer, st.nextSeq);
      if now - st.buffer[e].insertTime >= EffectiveLatency(st) {
        GapSound(st, t);
        var skip := DeclareGapAndSkip(st, e);
        FlushSound(skip.st, Watch(t, skip.events), now, budget);
        KeepsAppend(st, t, skip, Flush(skip.st, now, budget));
      }
    }
  }

  lemma StoreSound<P>(st: State<P>, t: Tracker, s: u16, pkt: P, now: real, flushNow: real)
    requires WellFormed(st) && st.nextSeq != -1 && Chained(st.buffer, st.nextSeq) && |st.buffer| <= st.maxSize
    requires Agrees(st, t) && Forward(st.nextSeq, s) <= 0x8000
    requires st.emittedAny || s == st.nextSeq || st.nextSeq in st.buffer
    ensures var r := Store(st, s, pkt, now, flushNow);
            Inv(r.st) && Agrees(r.st, Watch(t, r.events)) && SameConfig(r.st, st)
  {
    var stored := Insert(st, s, pkt, now);
    ChainedInsert(st.buffer, st.nextSeq, s, Entry(pkt, now));
    assert stored.buffer.Keys == st.buffer.Keys + {s};
    assert Sound(stored) && Agrees(stored, t);
    if |stored.buffer| > st.maxSize {
      GapSound(stored, t);
      var skip := DeclareGapAndSkip(stored, Earliest(stored.buffer, stored.nextSeq));
      var t' := Watch(t, skip.events);
      FlushSound(skip.st, t', flushNow, EmitBudget(skip.st));
      KeepsAppend(stored, t, skip, Tick(skip.st, flushNow));
    }
  }

  /** Every push keeps the invariant, and its events continue the play-out. */
  lemma PushSound<P>(st0: State<P>, t: Tracker, s: u16, pkt: P, now: real, flushNow: real)
    requires Inv(st0) && Agrees(st0, t)
    ensures var r := Push(st0, s, pkt, now, flushNow);
            Inv(r.st) && Agrees(r.st, Watch(t, r.events)) && SameConfig(r.st, st0)
  {
    var st := Started(st0, s);
    var behind := SeqDiff(st.nextSeq, s);
    if behind > 128 {
      if st.oldStreak + 1 >= RESYNC_THRESHOLD {
        var resynced := ResyncTo(st.(oldStreak := st.oldStreak + 1), s);
        StoreSound(resynced, Idle, s, pkt, now, flushNow);
        var stored := Store(resynced, s, pkt, now, flushNow);
        assert ([Resync(s)] + stored.events)[1..] == stored.events;
      }
    } else if behind > 0 {
      if !st.emittedAny {
        ChainedRewind(st.buffer, st.nextSeq, s);
        StoreSound(st.(oldStreak := 0, nextSeq := s), t, s, pkt, now, flushNow);
      }
    } else {
      StoreSound(st.(oldStreak := 0), t, s, pkt, now, flushNow);
    }
  }

  // ------------------------------------------------------------------
  // Conservation: what becomes of a stored packet
  // ------------------------------------------------------------------

  ghost function Held<P>(buffer: map<u16, Entry<P>>): set<(u16, P)> {
    set k | k in buffer :: (k, buffer[k].pkt)
  }

  ghost function Played<P>(events: seq<Event<P>>): multiset<(u16, P)>
    decreases |events|
  {
    if events == [] then multiset{}
    else (if events[0].Packet? then multiset{(events[0].num, events[0].pkt)} else multiset{}) + Played(events[1..])
  }

  lemma {:induction false} PlayedAppend<P>(a: seq<Event<P>>, b: seq<Event<P>>)
    ensures Played(a + b) == Played(a) + Played(b)
    decreases |a|
  {
    if a == [] {
      assert a + b == b;
    } else {
      assert (a + b)[1..] == a[1..] + b;
      PlayedAppend(a[1..], b);
    }
  }

  lemma {:induction false} PlayedLosses<P>(from: u16, n: nat)
    ensures Played(Losses<P>(from, n)) == multiset{}
    decreases n
  {
    if n > 0 {
      var rest := Losses<P>(Next(from), n - 1);
      assert Losses<P>(from, n)[1..] == rest;
      PlayedLosses<P>(Next(from), n - 1);
    }
  }

  lemma PlayedGap<P>(st: State<P>, gapEnd: u16)
    requires 0 <= st.nextSeq < 0x1_0000
    ensures Played(DeclareGapAndSkip(st, gapEnd).events) == multiset{}
  {
    var gapLen := SeqDiff(gapEnd, st.nextSeq);
    if 0 <= gapLen <= MAX_LOSS_EVENTS_PER_GAP {
      PlayedLosses<P>(st.nextSeq, gapLen);
    } else if gapLen > MAX_LOSS_EVENTS_PER_GAP {
      PlayedLosses<P>(st.nextSeq, MAX_LOSS_EVENTS_PER_GAP);
      var gap: Event<P> := Gap(st.nextSeq, gapEnd, gapLen);
      PlayedAppend(Losses(st.nextSeq, MAX_LOSS_EVENTS_PER_GAP), [gap]);
    }
  }

  /** Every packet offered to the transition is either still held or was played exactly once. */
  ghost predicate Conserves<P>(offered: map<u16, Entry<P>>, r: Step<P>) {
    multiset(Held(offered)) == multiset(Held(r.st.buffer)) + Played(r.events)
  }

  lemma HeldRemove<P>(buffer: map<u16, Entry<P>>, k: u16)
    requires k in buffer
    ensures multiset(Held(buffer)) == multiset(Held(buffer - {k})) + multiset{(k, buffer[k].pkt)}
  {
    var rest := buffer - {k};
    forall x | x in Held(buffer) ensures x in Held(rest) + {(k, buffer[k].pkt)} {
      var j :| j in buffer && x == (j, buffer[j].pkt);
      assert j == k || j in rest;
    }
    assert Held(buffer) == Held(rest) + {(k, buffer[k].pkt)};
    assert (k, buffer[k].pkt) !in Held(buffer - {k});
  }

  lemma {:induction false} FlushConserves<P>(st: State<P>, now: real, budget: nat)
    requires WellFormed(st)
    ensures Conserves(st.buffer, Flush(st, now, budget))
    decreases budget, if st.nextSeq in st.buffer then 0 else 1
  {
    if budget == 0 {
    } else if st.nextSeq in st.buffer {
      var e := Packet(st.nextSeq, st.buffer[st.nextSeq].pkt);
      HeldRemove(st.buffer, st.nextSeq);
      FlushConserves(EmitNext(st), now, budget - 1);
      var rest := Flush(EmitNext(st), now, budget - 1);
      assert ([e] + rest.events)[1..] == rest.events;
    } else if st.buffer == map[] {
    } else {
      EarliestExists(st.buffer, st.nextSeq);
      var e := Earliest(st.buffer, st.nextSeq);
      if now - st.buffer[e].insertTime >= EffectiveLatency(st) {
        var skip := DeclareGapAndSkip(st, e);
        PlayedGap(st, e);
        FlushConserves(skip.st, now, budget);
        PlayedAppend(skip.events, Flush(skip.st, now, budget).events);
      }
    }
  }

  // ------------------------------------------------------------------
  // Whole runs
  // ------------------------------------------------------------------

  datatype Op<P> =
    | PushOp(num: u16, pkt: P, now: real, flushNow: real)
    | TickOp(now: real)
    | ResetOp
    | SetLatencyOp(ms: real)
    | SetRttOp(ms: real)

  /** What a push offers to play-out: the buffer with the packet in it, the packet alone after a
      resync, or the buffer as it was when the packet is rejected. */
  ghost predicate Resyncs<P>(st: State<P>, s: u16) {
    -1 <= st.nextSeq < 0x1_0000
    && SeqDiff(Started(st, s).nextSeq, s) > 128 && st.oldStreak + 1 >= RESYNC_THRESHOLD
  }

  ghost predicate Accepts<P>(st: State<P>, s: u16) {
    -1 <= st.nextSeq < 0x1_0000
    && var behind := SeqDiff(Started(st, s).nextSeq, s);
       behind <= 0 || (behind <= 128 && !st.emittedAny)
  }

  ghost function Offered<P>(st: State<P>, s: u16, pkt: P, now: real): map<u16, Entry<P>> {
    if Resyncs(st, s) then map[s := Entry(pkt, now)]
    else if Accepts(st, s) then st.buffer[s := Entry(pkt, now)]
    else st.buffer
  }

  lemma StoreConserves<P>(st: State<P>, s: u16, pkt: P, now: real, flushNow: real)
    requires WellFormed(st) && st.nextSeq != -1
    ensures Conserves(st.buffer[s := Entry(pkt, now)], Store(st, s, pkt, now, flushNow))
  {
    var stored := Insert(st, s, pkt, now);
    if |stored.buffer| > st.maxSize {
      EarliestExists(stored.buffer, stored.nextSeq);
      var e := Earliest(stored.buffer, stored.nextSeq);
      var skip := DeclareGapAndSkip(stored, e);
      PlayedGap(stored, e);
      FlushConserves(skip.st, flushNow, EmitBudget(skip.st));
      PlayedAppend(skip.events, Tick(skip.st, flushNow).events);
    }
  }

  lemma PushConserves<P>(st: State<P>, s: u16, pkt: P, now: real, flushNow: real)
    requires WellFormed(st)
    ensures Conserves(Offered(st, s, pkt, now), Push(st, s, pkt, now, flushNow))
  {
    var st1 := Started(st, s);
    if Resyncs(st, s) {
      var resynced := ResyncTo(st1.(oldStreak := st1.oldStreak + 1), s);
      StoreConserves(resynced, s, pkt, now, flushNow);
      var stored := Store(resynced, s, pkt, now, flushNow);
      assert ([Resync(s)] + stored.events)[1..] == stored.events;
      assert resynced.buffer[s := Entry(pkt, now)] == map[s := Entry(pkt, now)];
    } else if Accepts(st, s) {
      var behind := SeqDiff(st1.nextSeq, s);
      var base := st1.(oldStreak := 0);
      StoreConserves(if behind > 0 then base.(nextSeq := s) else base, s, pkt, now, flushNow);
    }
  }

  /** A run: the state, everything emitted so far, every packet that entered the buffer, and every
      packet that a same-number arrival replaced or a resync or reset discarded. */
  datatype Trace<P(==)> = Trace(st: State<P>, log: seq<Event<P>>,
                                stored: multiset<(u16, P)>, dropped: multiset<(u16, P)>)

  ghost predicate Consistent<P>(tr: Trace<P>) {
    && Inv(tr.st)
    && Agrees(tr.st, Watch(Idle, tr.log))
    && tr.stored == multiset(Held(tr.st.buffer)) + Played(tr.log) + tr.dropped
  }

  ghost function Extend<P>(tr: Trace<P>, r: Step<P>, stored: multiset<(u16, P)>,
                           dropped: multiset<(u16, P)>): Trace<P>
  {
    Trace(r.st, tr.log + r.events, tr.stored + stored, tr.dropped + dropped)
  }

  /** The packets the arrival of number `s` takes out of the buffer without playing them. */
  ghost function DroppedByPush<P>(st: State<P>, s: u16): multiset<(u16, P)> {
    if Resyncs(st, s) then multiset(Held(st.buffer))
    else if Accepts(st, s) && s in st.buffer then multiset{(s, st.buffer[s].pkt)}
    else multiset{}
  }

  ghost function Apply<P>(tr: Trace<P>, op: Op<P>): Trace<P>
    requires WellFormed(tr.st)
  {
    match op
    case PushOp(s, pkt, now, flushNow) =>
      var enters := Resyncs(tr.st, s) || Accepts(tr.st, s);
      Extend(tr, Push(tr.st, s, pkt, now, flushNow),
             if enters then multiset{(s, pkt)} else multiset{}, DroppedByPush(tr.st, s))
    case TickOp(now) => Extend(tr, Tick(tr.st, now), multiset{}, multiset{})
    case ResetOp => Extend(tr, Step(Reset(tr.st), [Restart]), multiset{}, multiset(Held(tr.st.buffer)))
    case SetLatencyOp(ms) => Extend(tr, Step(SetLatency(tr.st, ms), []), multiset{}, multiset{})
    case SetRttOp(ms) => Extend(tr, Step(SetRtt(tr.st, ms), []), multiset{}, multiset{})
  }

  function SetLatency<P>(st: State<P>, ms: real): State<P> {
    if ms < 0.0 then st else st.(latency := ms)
  }

  function SetRtt<P>(st: State<P>, ms: real): State<P> {
    if ms < 0.0 then st else st.(rttMs := ms)
  }

  function Initial<P>(maxSize: nat, latency: real, rttMs: real, rttSafetyMs: real): State<P> {
    State(map[], -1, 0, false, if maxSize == 0 then 256 else maxSize, if latency == 0.0 then 50.0 else latency, rttMs,
          rttSafetyMs)
  }

  lemma OfferedAccount<P>(st: State<P>, s: u16, pkt: P, now: real)
    requires -1 <= st.nextSeq < 0x1_0000
    ensures multiset(Held(Offered(st, s, pkt, now))) + DroppedByPush(st, s)
         == multiset(Held(st.buffer)) + if Resyncs(st, s) || Accepts(st, s) then multiset{(s, pkt)} else multiset{}
  {
    var offered := Offered(st, s, pkt, now);
    if Resyncs(st, s) {
      assert Held(offered) == {(s, pkt)} by { assert s in offered; }
    } else if Accepts(st, s) {
      HeldRemove(offered, s);
      if s in st.buffer {
        HeldRemove(st.buffer, s);
        assert offered - {s} == st.buffer - {s};
      } else {
        assert offered - {s} == st.buffer;
      }
    }
  }

  lemma ExtendConsistent<P>(tr: Trace<P>, r: Step<P>, stored: multiset<(u16, P)>, dropped: multiset<(u16, P)>)
    requires Consistent(tr)
    requires Inv(r.st) && Agrees(r.st, Watch(Watch(Idle, tr.log), r.events))
    requires multiset(Held(r.st.buffer)) + Played(r.events) + dropped == multiset(Held(tr.st.buffer)) + stored
    ensures Consistent(Extend(tr, r, stored, dropped))
  {
    WatchAppend(Idle, tr.log, r.events);
    PlayedAppend(tr.log, r.events);
    var held, held' := multiset(Held(tr.st.buffer)), multiset(Held(r.st.buffer));
    assert tr.stored + stored == held + stored + Played(tr.log) + tr.dropped;
    assert held' + (Played(tr.log) + Played(r.events)) + (tr.dropped + dropped)
        == (held' + Played(r.events) + dropped) + Played(tr.log) + tr.dropped;
  }

  /** One call keeps the whole account of the run. */
  lemma ApplyConsistent<P>(tr: Trace<P>, op: Op<P>)
    requires Consistent(tr)
    ensures Consistent(Apply(tr, op))
  {
    var t := Watch(Idle, tr.log);
    match op
    case PushOp(s, pkt, now, flushNow) =>
      PushSound(tr.st, t, s, pkt, now, flushNow);
      PushConserves(tr.st, s, pkt, now, flushNow);
      OfferedAccount(tr.st, s, pkt, now);
      var stored := if Resyncs(tr.st, s) || Accepts(tr.st, s) then multiset{(s, pkt)} else multiset{};
      ExtendConsistent(tr, Push(tr.st, s, pkt, now, flushNow), stored, DroppedByPush(tr.st, s));
    case TickOp(now) =>
      FlushSound(tr.st, t, now, EmitBudget(tr.st));
      FlushConserves(tr.st, now, EmitBudget(tr.st));
      ExtendConsistent(tr, Tick(tr.st, now), multiset{}, multiset{});
    case ResetOp =>
      var r := Step(Reset(tr.st), [Restart]);
      assert Held(r.st.buffer) == {};
      ExtendConsistent(tr, r, multiset{}, multiset(Held(tr.st.buffer)));
    case SetLatencyOp(ms) =>
      ExtendConsistent(tr, Step(SetLatency(tr.st, ms), []), multiset{}, multiset{});
    case SetRttOp(ms) =>
      ExtendConsistent(tr, Step(SetRtt(tr.st, ms), []), multiset{}, multiset{});
  }

  /** The run of a sequence of calls on a new buffer. Whatever the calls, the state is sound, the
      events are one well-formed play-out, and every packet is accounted for. */
  ghost function Run<P>(start: State<P>, ops: seq<Op<P>>): (tr: Trace<P>)
    requires Inv(start) && start.nextSeq == -1
    ensures Consistent(tr)
    decreases |ops|
  {
    if ops == [] then
      Trace(start, [], multiset{}, multiset{})
    else
      var before := Run(start, ops[..|ops| - 1]);
      ApplyConsistent(before, ops[|ops| - 1]);
      Apply(before, ops[|ops| - 1])
  }

  // ------------------------------------------------------------------
  // What a log accepted by the observer says, in its own numbers
  // ------------------------------------------------------------------

  ghost function After<P>(log: seq<Event<P>>, i: nat): Tracker
    requires i <= |log|
  {
    Watch(Idle, log[..i])
  }

  lemma AfterStep<P>(log: seq<Event<P>>, i: nat)
    requires i < |log|
    ensures After(log, i + 1) == Observe(After(log, i), log[i])
  {
    assert log[..i + 1] == log[..i] + [log[i]];
    WatchAppend(Idle, log[..i], [log[i]]);
  }

  lemma {:induction false} NeverBroken<P>(log: seq<Event<P>>, i: nat)
    requires i <= |log| && Watch(Idle, log) != Broken
    ensures After(log, i) != Broken
    decreases |log| - i
  {
    if i == |log| {
      assert log[..i] == log;
    } else {
      NeverBroken(log, i + 1);
      AfterStep(log, i);
    }
  }

  ghost predicate Plays<P>(e: Event<P>) {
    e.Packet? || e.Loss?
  }

  ghost predicate Breaks<P>(e: Event<P>) {
    e.Resync? || e.Restart?
  }

  /** The unbounded position a played or lost number stands for, within its segment. */
  ghost function PositionOf<P>(log: seq<Event<P>>, i: nat): nat
    requires i < |log| && Plays(log[i])
  {
    if After(log, i).At? then After(log, i).pos else log[i].num
  }

  lemma PositionBefore<P>(log: seq<Event<P>>, i: nat)
    requires i < |log| && Watch(Idle, log) != Broken && Plays(log[i])
    ensures log[i].num == Wrap(PositionOf(log, i))
    ensures After(log, i + 1).At? && After(log, i + 1).pos == PositionOf(log, i) + 1
  {
    AfterStep(log, i);
    NeverBroken(log, i + 1);
  }

  /** Events `i` to `j` are packets and losses only. */
  ghost predicate Stretch<P>(log: seq<Event<P>>, i: int, j: int) {
    0 <= i <= j < |log| && Plays(log[i]) && Plays(log[j]) && forall k :: i <= k <= j ==> Plays(log[k])
  }

  /** Between two gap events the numbers played or lost are consecutive modulo 2^16. */
  lemma {:induction false} Consecutive<P>(log: seq<Event<P>>, i: nat, j: nat)
    requires Stretch(log, i, j) && Watch(Idle, log) != Broken
    ensures log[j].num == Wrap(log[i].num + (j - i))
    ensures PositionOf(log, j) == PositionOf(log, i) + (j - i)
    decreases j - i
  {
    hide After, Watch, Observe;
    PositionBefore(log, i);
    if i < j {
      Consecutive(log, i + 1, j);
      PositionBefore(log, i + 1);
      PositionBefore(log, j);
    }
  }

  /** Within a segment no position is played or lost twice, gaps or not. */
  lemma {:induction false} NoRepeat<P>(log: seq<Event<P>>, i: nat, j: nat)
    requires i < j < |log| && Watch(Idle, log) != Broken
    requires Plays(log[i]) && Plays(log[j])
    requires forall k :: i <= k <= j ==> !Breaks(log[k])
    ensures PositionOf(log, i) < PositionOf(log, j)
    ensures log[j].num == Wrap(PositionOf(log, j))
    decreases j
  {
    PositionBefore(log, i);
    PositionBefore(log, j);
    StaysAhead(log, i, j);
  }

  lemma {:induction false} StaysAhead<P>(log: seq<Event<P>>, i: nat, j: nat)
    requires i < j < |log| && Watch(Idle, log) != Broken && Plays(log[i])
    requires forall k :: i <= k <= j ==> !Breaks(log[k])
    ensures After(log, j).At? && PositionOf(log, i) < After(log, j).pos
    decreases j
  {
    PositionBefore(log, i);
    if i + 1 < j {
      StaysAhead(log, i, j - 1);
      AfterStep(log, j - 1);
      NeverBroken(log, j);
    }
  }

  /** A gap event follows the losses of its first MAX_LOSS_EVENTS_PER_GAP numbers, says where play-out
      goes on, and the packet there is the next event. */
  lemma {:induction false} GapAnnounced<P>(log: seq<Event<P>>, i: nat)
    requires i < |log| && Watch(Idle, log) != Broken && log[i].Gap?
    ensures 512 <= i && 512 < log[i].length <= 0x8000
    ensures forall k :: i - 512 <= k < i ==>
              log[k] == Loss(Wrap(log[i].from + (k - (i - 512))))
    ensures log[i].to == Wrap(log[i].from + log[i].length)
    ensures i + 1 < |log| && !Breaks(log[i + 1]) ==> log[i + 1].Packet? && log[i + 1].num == log[i].to
  {
    hide Watch, After, Wrap;
    AfterStep(log, i);
    NeverBroken(log, i + 1);
    var at := After(log, i);
    LossRun(log, i);
    forall k | i - MAX_LOSS_EVENTS_PER_GAP <= k < i
      ensures log[k] == Loss(Wrap(log[i].from + (k - (i - MAX_LOSS_EVENTS_PER_GAP))))
    {
      assert log[k] == Loss(Wrap(at.pos - (i - k)));
      WrapAdd(at.pos - MAX_LOSS_EVENTS_PER_GAP, k - (i - MAX_LOSS_EVENTS_PER_GAP));
    }
    WrapAdd(at.pos - MAX_LOSS_EVENTS_PER_GAP, log[i].length);
    if i + 1 < |log| {
      AfterStep(log, i + 1);
      NeverBroken(log, i + 2);
    }
  }

  lemma {:induction false} LossRun<P>(log: seq<Event<P>>, i: nat)
    requires i <= |log| && Watch(Idle, log) != Broken && After(log, i).At?
    requires After(log, i).lost <= MAX_LOSS_EVENTS_PER_GAP
    ensures var t := After(log, i);
            t.lost <= i && t.lost <= t.pos
            && forall k :: i - t.lost <= k < i ==> log[k] == Loss(Wrap(t.pos - (i - k)))
    decreases i
  {
    if After(log, i).lost > 0 {
      AfterStep(log, i - 1);
      NeverBroken(log, i - 1);
      LossRun(log, i - 1);
    }
  }

  lemma AllConsecutive<P>(log: seq<Event<P>>)
    requires Watch(Idle, log) != Broken
    ensures forall i, j :: Stretch(log, i, j) ==> log[j].num == Wrap(log[i].num + (j - i))
  {
    forall i, j | Stretch(log, i, j)
      ensures log[j].num == Wrap(log[i].num + (j - i))
    {
      Consecutive(log, i, j);
    }
  }

  /** In any run, stretches of packets and losses count up by one. */
  lemma RunPlaysInOrder<P>(start: State<P>, ops: seq<Op<P>>)
    requires Inv(start) && start.nextSeq == -1
    ensures var log := Run(start, ops).log;
            forall i, j :: Stretch(log, i, j) ==> log[j].num == Wrap(log[i].num + (j - i))
  {
    hide Run, Inv, Sound;
    var tr := Run(start, ops);
    assert Watch(Idle, tr.log) != Broken;
    AllConsecutive(tr.log);
  }

  // Steps of the flush loop, for the object below.

  lemma EarliestUnique<P>(buffer: map<u16, Entry<P>>, next: u16, k: u16)
    requires IsEarliest(buffer, next, k)
    ensures buffer != map[] && Earliest(buffer, next) == k
  {
    var e := Earliest(buffer, next);
    EarliestExists(buffer, next);
    assert Forward(next, e) == Forward(next, k);
  }

  ghost predicate Steady<P>(st: State<P>, log: seq<Event<P>>) {
    Sound(st) && Agrees(st, Watch(Idle, log))
  }

  /** Where a flush with budget `n` will end, given what is logged already. */
  ghost function Goal<P>(st: State<P>, log: seq<Event<P>>, now: real, n: nat): Step<P>
    requires WellFormed(st)
  {
    var r := Flush(st, now, n);
    Step(r.st, log + r.events)
  }

  lemma EmitSteady<P>(st: State<P>, log: seq<Event<P>>)
    requires Steady(st, log) && st.nextSeq in st.buffer
    ensures var e := Packet(st.nextSeq, st.buffer[st.nextSeq].pkt);
            Steady(EmitNext(st), log + [e]) && |EmitNext(st).buffer| == |st.buffer| - 1
  {
    var e := Packet(st.nextSeq, st.buffer[st.nextSeq].pkt);
    EmitSound(st, Watch(Idle, log));
    WatchAppend(Idle, log, [e]);
  }

  lemma SkipSteady<P>(st: State<P>, log: seq<Event<P>>, e: u16)
    requires Steady(st, log) && st.nextSeq != -1 && IsEarliest(st.buffer, st.nextSeq, e)
    ensures var skip := DeclareGapAndSkip(st, e);
            SeqDiff(e, st.nextSeq) >= 0 && skip.st == st.(nextSeq := e) && Steady(skip.st, log + skip.events)
  {
    EarliestUnique(st.buffer, st.nextSeq, e);
    GapSound(st, Watch(Idle, log));
    WatchAppend(Idle, log, DeclareGapAndSkip(st, e).events);
  }

  lemma GoalSkip<P>(st: State<P>, log: seq<Event<P>>, now: real, n: nat, e: u16)
    requires Steady(st, log) && st.nextSeq != -1 && st.nextSeq !in st.buffer
    requires n > 0 && IsEarliest(st.buffer, st.nextSeq, e)
    ensures var skip := DeclareGapAndSkip(st, e);
            Goal(st, log, now, n) ==
              if now - st.buffer[e].insertTime >= EffectiveLatency(st) then Goal(skip.st, log + skip.events, now, n)
              else Step(st, log)
  {
    EarliestUnique(st.buffer, st.nextSeq, e);
    if now - st.buffer[e].insertTime >= EffectiveLatency(st) {
      var skip := DeclareGapAndSkip(st, e);
      var rest := Flush(skip.st, now, n);
      assert log + (skip.events + rest.events) == (log + skip.events) + rest.events;
    }
    assert log + [] == log;
  }

  // ------------------------------------------------------------------
  // The object
  // ------------------------------------------------------------------

  class JitterBuffer<P> {
    var buffer: map<u16, Entry<P>>
    var count: int
    var nextSeq: int
    var oldStreak: nat
    var emittedAny: bool
    const maxSize: nat
    var latency: real
    var rttMs: real
    const rttSafetyMs: real
    /** Every event emitted so far. */
    ghost var log: seq<Event<P>>
    /** How often the branch for a negative gap was taken. */
    ghost var negativeGaps: nat

    function Abs(): State<P>
      reads this
    {
      State(buffer, nextSeq, oldStreak, emittedAny, maxSize, latency, rttMs, rttSafetyMs)
    }

    /** Consistent fields: what every internal step keeps. */
    ghost predicate Coherent()
      reads this
    {
      count == |buffer| && WellFormed(Abs())
    }

    ghost predicate Valid()
      reads this
    {
      && count == |buffer|
      && Inv(Abs())
      && Agrees(Abs(), Watch(Idle, log))
      && negativeGaps == 0
    }

    constructor (maxSize: nat, latency: real, rttMs: real, rttSafetyMs: real)
      ensures Valid() && log == []
      ensures Abs() == Initial(maxSize, latency, rttMs, rttSafetyMs)
      ensures this.maxSize == (if maxSize == 0 then 256 else maxSize) && this.rttMs == rttMs
      ensures this.latency == (if latency == 0.0 then 50.0 else latency) && this.rttSafetyMs == rttSafetyMs
      ensures buffer == map[] && nextSeq == -1 && oldStreak == 0 && !emittedAny
    {
      buffer, count, nextSeq, oldStreak, emittedAny := map[], 0, -1, 0, false;
      this.maxSize := if maxSize == 0 then 256 else maxSize;
      this.latency := if latency == 0.0 then 50.0 else latency;
      this.rttMs, this.rttSafetyMs := rttMs, rttSafetyMs;
      log, negativeGaps := [], 0;
    }

    method SetLatencyMs(ms: real)
      requires Valid()
      modifies this`latency
      ensures Valid() && Abs() == SetLatency(old(Abs()), ms)
      ensures latency == if ms < 0.0 then old(latency) else ms
    {
      if ms < 0.0 {
        return;
      }
      latency := ms;
    }

    method SetRttMs(ms: real)
      requires Valid()
      modifies this`rttMs
      ensures Valid() && Abs() == SetRtt(old(Abs()), ms)
      ensures rttMs == if ms < 0.0 then old(rttMs) else ms
    {
      if ms < 0.0 {
        return;
      }
      rttMs := ms;
    }

    /** Full scan, in any order of the keys. */
    method FindEarliest() returns (best: Option<u16>)
      requires Coherent()
      ensures best.None? <==> buffer == map[]
      ensures best.Some? ==> IsEarliest(buffer, nextSeq, best.value)
    {
      best := None;
      var bestDist := 0x1_0000;
      var keys := buffer.Keys;
      while keys != {}
        invariant keys <= buffer.Keys
        invariant best.None? ==> keys == buffer.Keys && bestDist == 0x1_0000
        invariant best.Some? ==> best.value in buffer && bestDist == Forward(nextSeq, best.value)
        invariant forall k :: k in buffer && k !in keys ==> bestDist <= Forward(nextSeq, k)
        decreases |keys|
      {
        var key :| key in keys;
        keys := keys - {key};
        var dist := Forward(nextSeq, key);
        if dist < bestDist {
          bestDist := dist;
          best := Some(key);
        }
      }
    }

    /** The windowed lookup: the numbers just ahead first, the full scan only when those are absent.
        It finds the same packet as the full scan. */
    method FindNextAvailable() returns (found: Option<u16>)
      requires Coherent() && nextSeq !in buffer
      ensures found.None? <==> buffer == map[]
      ensures found.Some? ==> IsEarliest(buffer, nextSeq, found.value)
    {
      if count == 0 {
        return None;
      }
      var limit := if maxSize + 1 < 256 then maxSize + 1 else 256;
      var i := 1;
      while i <= limit
        invariant 1 <= i <= limit + 1
        invariant forall k :: k in buffer ==> Forward(nextSeq, k) >= i
      {
        var num := if nextSeq + i < 0x1_0000 then nextSeq + i else nextSeq + i - 0x1_0000;
        if num in buffer {
          return Some(num);
        }
        assert forall k: u16 :: Forward(nextSeq, k) == i ==> k == num;
        i := i + 1;
      }
      found := FindEarliest();
    }

    method DeclareGap(gapEnd: u16)
      requires Coherent() && nextSeq != -1
      modifies this
      ensures Coherent()
      ensures var r := DeclareGapAndSkip(old(Abs()), gapEnd);
              Abs() == r.st && log == old(log) + r.events
      ensures negativeGaps == old(negativeGaps) + if SeqDiff(gapEnd, old(nextSeq)) < 0 then 1 else 0
    {
      var gapLen := SeqDiff(gapEnd, nextSeq);
      if gapLen < 0 {
        nextSeq := gapEnd;
        negativeGaps := negativeGaps + 1;
        return;
      }
      var toReport := if gapLen < MAX_LOSS_EVENTS_PER_GAP then gapLen else MAX_LOSS_EVENTS_PER_GAP;
      var from: u16 := nextSeq;
      var s, i := from, 0;
      while i < toReport
        invariant 0 <= i <= toReport
        invariant log + Losses(s, toReport - i) == old(log) + Losses(from, toReport)
        invariant Abs() == old(Abs()) && count == old(count) && negativeGaps == old(negativeGaps)
      {
        ghost var rest := Losses<P>(Next(s), toReport - i - 1);
        assert log + ([Loss(s)] + rest) == (log + [Loss(s)]) + rest;
        log := log + [Loss(s)];
        s := Next(s);
        i := i + 1;
      }
      assert log + [] == log;
      if gapLen > toReport {
        log := log + [Gap(nextSeq, gapEnd, gapLen)];
      }
      nextSeq := gapEnd;
    }

    /** The flush timer's work at time `now`. */
    method DoFlush(now: real)
      requires count == |buffer| && Steady(Abs(), log)
      modifies this
      ensures count == |buffer| && negativeGaps == old(negativeGaps)
      ensures Step(Abs(), log) == Goal(old(Abs()), old(log), now, EmitBudget(old(Abs())))
    {
      hide Chained, Watch, Agrees, EmitNext, DeclareGapAndSkip, IsEarliest, Anchored;
      var emitted := 0;
      var maxEmit := if maxSize > 64 then maxSize else 64;
      while emitted < maxEmit
        invariant 0 <= emitted <= maxEmit
        invariant count == |buffer| && Steady(Abs(), log) && negativeGaps == old(negativeGaps)
        invariant Goal(Abs(), log, now, maxEmit - emitted) == Goal(old(Abs()), old(log), now, maxEmit)
        decreases maxEmit - emitted, if nextSeq in buffer then 0 else 1
      {
        if nextSeq in buffer {
          EmitSteady(Abs(), log);
          EmitHead();
          emitted := emitted + 1;
        } else {
          var nextEntry := FindNextAvailable();
          if nextEntry.None? {
            break;
          }
          GoalSkip(Abs(), log, now, maxEmit - emitted, nextEntry.value);
          var waited := now - buffer[nextEntry.value].insertTime;
          if waited >= EffectiveLatency(Abs()) {
            SkipSteady(Abs(), log, nextEntry.value);
            DeclareGap(nextEntry.value);
          } else {
            break;
          }
        }
      }
      assert log + [] == log;
    }

    method EmitHead()
      requires Coherent() && nextSeq in buffer
      modifies this
      ensures count == old(count) - 1 && Abs() == EmitNext(old(Abs())) && negativeGaps == old(negativeGaps)
      ensures log == old(log) + [Packet(old(nextSeq), old(buffer)[old(nextSeq)].pkt)]
    {
      var entry := buffer[nextSeq];
      log := log + [Packet(nextSeq, entry.pkt)];
      buffer := buffer - {nextSeq};
      count := count - 1;
      emittedAny := true;
      nextSeq := Next(nextSeq);
    }

    method DoForceAdvance(now: real)
      requires count == |buffer| && Steady(Abs(), log)
      modifies this
      ensures count == |buffer| && negativeGaps == old(negativeGaps)
      ensures var r := ForceAdvance(old(Abs()), now);
              Abs() == r.st && log == old(log) + r.events
    {
      hide Chained, Watch, Agrees, Flush, Anchored, IsEarliest, DeclareGapAndSkip, EmitBudget;
      var earliest := FindEarliest();
      if earliest.None? {
        return;
      }
      EarliestUnique(buffer, nextSeq, earliest.value);
      SkipSteady(Abs(), log, earliest.value);
      DeclareGap(earliest.value);
      DoFlush(now);
    }

    method StorePacket(s: u16, pkt: P, now: real, flushNow: real)
      requires count == |buffer| && nextSeq != -1 && Steady(Insert(Abs(), s, pkt, now), log)
      modifies this
      ensures count == |buffer| && negativeGaps == old(negativeGaps)
      ensures var r := Store(old(Abs()), s, pkt, now, flushNow);
              Abs() == r.st && log == old(log) + r.events
    {
      hide Chained, Watch, Agrees, Flush, Anchored, IsEarliest, DeclareGapAndSkip;
      if s !in buffer {
        count := count + 1;
      }
      buffer := buffer[s := Entry(pkt, now)];
      assert buffer.Keys == old(buffer).Keys + {s};
      assert Abs() == Insert(old(Abs()), s, pkt, now);
      if count > maxSize {
        DoForceAdvance(flushNow);
      }
    }

    method DoResync(s: u16)
      modifies this
      ensures Abs() == ResyncTo(old(Abs()), s) && count == 0 && negativeGaps == old(negativeGaps)
      ensures log == old(log) + [Resync(s)]
    {
      buffer := map[];
      count := 0;
      nextSeq := s;
      oldStreak := 0;
      emittedAny := false;
      log := log + [Resync(s)];
    }

    method PushPacket(s: u16, pkt: P, now: real, flushNow: real)
      requires Valid()
      modifies this
      ensures Valid()
      ensures var r := Push(old(Abs()), s, pkt, now, flushNow);
              Abs() == r.st && log == old(log) + r.events
    {
      PushSound(Abs(), Watch(Idle, log), s, pkt, now, flushNow);
      WatchAppend(Idle, log, Push(Abs(), s, pkt, now, flushNow).events);
      PushStores(Abs(), log, s, pkt, now);
      hide Chained, Watch, Agrees, Flush, Anchored, IsEarliest, DeclareGapAndSkip, Sound, Store;
      if nextSeq == -1 {
        nextSeq := s;
      }
      var behind := SeqDiff(nextSeq, s);
      if behind > 128 {
        oldStreak := oldStreak + 1;
        if oldStreak >= RESYNC_THRESHOLD {
          DoResync(s);
          ghost var resynced := log;
          StorePacket(s, pkt, now, flushNow);
          ghost var more := Store(ResyncTo(old(Abs()), s), s, pkt, now, flushNow).events;
          assert old(log) + ([Resync(s)] + more) == (old(log) + [Resync(s)]) + more;
        }
        return;
      }
      oldStreak := 0;
      if behind > 0 {
        if !emittedAny {
          nextSeq := s;
          StorePacket(s, pkt, now, flushNow);
        }
        return;
      }
      StorePacket(s, pkt, now, flushNow);
    }

    /** One run of the flush timer. */
    method OnTimer(now: real)
      requires Valid()
      modifies this
      ensures Valid()
      ensures var r := Tick(old(Abs()), now);
              Abs() == r.st && log == old(log) + r.events
    {
      FlushSound(Abs(), Watch(Idle, log), now, EmitBudget(Abs()));
      WatchAppend(Idle, log, Tick(Abs(), now).events);
      DoFlush(now);
    }

    method ResetState()
      requires Valid()
      modifies this
      ensures Valid() && Abs() == Reset(old(Abs())) && log == old(log) + [Restart]
      ensures buffer == map[] && nextSeq == -1 && oldStreak == 0 && !emittedAny
      ensures latency == old(latency) && rttMs == old(rttMs)
    {
      WatchAppend(Idle, log, [Restart]);
      buffer := map[];
      count := 0;
      nextSeq := -1;
      oldStreak := 0;
      emittedAny := false;
      log := log + [Restart];
    }

    method Size() returns (n: nat)
      requires Valid()
      ensures n == |buffer| <= maxSize
    {
      n := count;
    }
  }

  /** Wherever a push stores its packet, the state with the packet in it is steady. */
  lemma PushStores<P>(st0: State<P>, log: seq<Event<P>>, s: u16, pkt: P, now: real)
    requires Inv(st0) && Agrees(st0, Watch(Idle, log))
    ensures var st := Started(st0, s);
            var behind := SeqDiff(st.nextSeq, s);
            && (Resyncs(st0, s) ==> Steady(Insert(ResyncTo(st, s), s, pkt, now), log + [Resync(s)]))
            && (0 < behind <= 128 && !st.emittedAny ==>
                  Steady(Insert(st.(oldStreak := 0, nextSeq := s), s, pkt, now), log))
            && (behind <= 0 ==> Steady(Insert(st.(oldStreak := 0), s, pkt, now), log))
  {
    var st := Started(st0, s);
    WatchAppend(Idle, log, [Resync(s)]);
    var behind := SeqDiff(st.nextSeq, s);
    if 0 < behind <= 128 && !st.emittedAny {
      ChainedRewind(st.buffer, st.nextSeq, s);
      ChainedInsert(st.buffer, s, s, Entry(pkt, now));
    } else if behind <= 0 {
      ChainedInsert(st.buffer, st.nextSeq, s, Entry(pkt, now));
    }
  }
}
