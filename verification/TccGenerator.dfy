/**
 The feedback generator of src/bandwidth.js: arrivals are recorded by 16-bit transport-wide number and
 reported in circular order, also across a wrap of the numbers.
 */
module TccGeneratorModel {
  import opened JsMap
  import opened Options
  import opened SeqNum
  import opened TransportCcModel
  import opened Wire

  type Arrivals = Map<u16, int>

  /** An arrival on the unwrapped number line, at a time in milliseconds. */
  datatype Arrival = Arrival(num: int, time: int)

  // ------------------------------------------------------------------
  // The number line
  // ------------------------------------------------------------------

  ghost predicate Ascending(s: seq<Arrival>) {
    forall i, j :: 0 <= i < j < |s| ==> s[i].num < s[j].num
  }

  function Entries(keys: seq<u16>, m: map<u16, int>): seq<Arrival>
    requires forall i :: 0 <= i < |keys| ==> keys[i] in m
  {
    seq(|keys|, i requires 0 <= i < |keys| => Arrival(keys[i], m[keys[i]]))
  }

  /** The result of sorting by number. */
  function InsertByNum(a: Arrival, s: seq<Arrival>): seq<Arrival> {
    if s == [] || a.num <= s[0].num then [a] + s else [s[0]] + InsertByNum(a, s[1..])
  }

  function SortByNum(s: seq<Arrival>): seq<Arrival> {
    if s == [] then [] else InsertByNum(s[0], SortByNum(s[1..]))
  }

  lemma {:induction false} InsertExact(a: Arrival, s: seq<Arrival>)
    requires Ascending(s) && forall i :: 0 <= i < |s| ==> s[i].num != a.num
    ensures Ascending(InsertByNum(a, s))
    ensures forall x :: x in InsertByNum(a, s) <==> x == a || x in s
  {
    if s != [] && a.num > s[0].num {
      var rest := InsertByNum(a, s[1..]);
      InsertExact(a, s[1..]);
      assert forall x :: x in s <==> x == s[0] || x in s[1..];
      forall i | 0 <= i < |rest| ensures s[0].num < rest[i].num {
        assert rest[i] in rest;
      }
    }
  }

  lemma {:induction false} SortExact(s: seq<Arrival>)
    requires forall i, j :: 0 <= i < j < |s| ==> s[i].num != s[j].num
    ensures Ascending(SortByNum(s)) && forall x :: x in SortByNum(s) <==> x in s
  {
    if s != [] {
      var rest := SortByNum(s[1..]);
      SortExact(s[1..]);
      forall i | 0 <= i < |rest| ensures rest[i].num != s[0].num {
        assert rest[i] in s[1..];
      }
      InsertExact(s[0], rest);
      assert forall x :: x in s <==> x == s[0] || x in s[1..];
    }
  }

  lemma {:induction false} SortedAlready(s: seq<Arrival>)
    requires Ascending(s)
    ensures SortByNum(s) == s
  {
    if s != [] {
      SortedAlready(s[1..]);
    }
  }

  /** The widest step between neighbours among the first `n`, the first one if there are several. */
  datatype Gap = Gap(size: int, at: int)

  function WidestGap(s: seq<Arrival>, n: nat): Gap
    requires n <= |s|
  {
    if n < 2 then Gap(0, -1)
    else
      var before := WidestGap(s, n - 1);
      var g := s[n - 1].num - s[n - 2].num;
      if g > before.size then Gap(g, n - 1) else before
  }

  lemma {:induction false} WidestGapExact(s: seq<Arrival>, n: nat)
    requires n <= |s|
    ensures var w := WidestGap(s, n);
            && (forall i :: 1 <= i < n ==> s[i].num - s[i - 1].num <= w.size)
            && (w.size > 0 ==> 1 <= w.at < n && s[w.at].num - s[w.at - 1].num == w.size)
    decreases n
  {
    if n >= 2 {
      WidestGapExact(s, n - 1);
    }
  }

  function Raise(s: seq<Arrival>): seq<Arrival> {
    seq(|s|, i requires 0 <= i < |s| => Arrival(s[i].num + 0x1_0000, s[i].time))
  }

  /** A step of more than 32768 is the wrap: what lies below it comes after, one turn later. */
  function Unwrap(s: seq<Arrival>): seq<Arrival> {
    var w := WidestGap(s, |s|);
    WidestGapExact(s, |s|);
    if |s| >= 2 && w.size > 32768 then SortByNum(s[w.at..] + Raise(s[..w.at])) else s
  }

  /** The arrival of number `k`, laid out from base `b`. */
  function Place(m: map<u16, int>, b: u16, k: u16): Arrival
    requires k in m
  {
    Arrival(b + Forward(b, k), m[k])
  }

  /** `line` is the recorded arrivals in circular order from `b`. */
  ghost predicate IsLine(line: seq<Arrival>, m: map<u16, int>, b: u16) {
    && Ascending(line)
    && (forall i :: 0 <= i < |line| ==> exists k :: k in m && line[i] == Place(m, b, k))
    && forall k :: k in m ==> Place(m, b, k) in line
  }

  /** All numbers lie within 32768 of `b`, which was recorded. */
  ghost predicate Spans(m: map<u16, int>, b: u16) {
    b in m && forall k :: k in m ==> Forward(b, k) < 32768
  }

  /** The arrivals by raw number. */
  ghost predicate SortedEntries(s: seq<Arrival>, m: map<u16, int>) {
    && Ascending(s)
    && (forall i :: 0 <= i < |s| ==> 0 <= s[i].num < 0x1_0000 && s[i].num in m && s[i].time == m[s[i].num])
    && forall k :: k in m ==> Arrival(k, m[k]) in s
  }

  lemma EntriesSorted(m: Arrivals)
    requires m.Valid()
    ensures (forall i :: 0 <= i < |m.keys| ==> m.keys[i] in m.vals)
    ensures SortedEntries(SortByNum(Entries(m.keys, m.vals)), m.vals)
  {
    assert forall i :: 0 <= i < |m.keys| ==> m.keys[i] in m.keys;
    var e := Entries(m.keys, m.vals);
    var s := SortByNum(e);
    SortExact(e);
    forall i | 0 <= i < |s| ensures 0 <= s[i].num < 0x1_0000 && s[i].num in m.vals && s[i].time == m.vals[s[i].num] {
      assert s[i] in e;
    }
    forall k | k in m.vals ensures Arrival(k, m.vals[k]) in s {
      assert k in m.keys;
      var i :| 0 <= i < |m.keys| && m.keys[i] == k;
      assert e[i] == Arrival(k, m.vals[k]);
    }
  }

  /** Below the base the numbers have wrapped; the two groups lie more than 32768 apart. */
  ghost predicate SplitsAt(s: seq<Arrival>, m: map<u16, int>, b: u16, p: nat) {
    && p < |s| && s[p].num == b
    && (forall j :: 0 <= j < p ==> s[j].num < b - 32768 && s[j] in s)
    && forall j :: p <= j < |s| ==> b <= s[j].num < b + 32768
  }

  lemma FindSplit(s: seq<Arrival>, m: map<u16, int>, b: u16) returns (p: nat)
    requires SortedEntries(s, m) && Spans(m, b)
    ensures SplitsAt(s, m, b, p)
  {
    assert Arrival(b, m[b]) in s;
    p :| 0 <= p < |s| && s[p] == Arrival(b, m[b]);
    forall j | 0 <= j < |s| ensures if j < p then s[j].num < b - 32768 else b <= s[j].num < b + 32768 {
      var k: u16 := s[j].num;
      assert k in m && Forward(b, k) < 32768;
    }
  }

  lemma OnlyWideGap(s: seq<Arrival>, m: map<u16, int>, b: u16, p: nat, at: nat)
    requires SortedEntries(s, m) && SplitsAt(s, m, b, p) && 1 <= at < |s|
    ensures s[at].num - s[at - 1].num > 32768 <==> at == p
  {
    hide Ascending;
    assert s[at].num in m && s[at - 1].num in m;
  }

  /** Unwrapping cuts the sorted list at the base. */
  lemma UnwrapCuts(s: seq<Arrival>, m: map<u16, int>, b: u16, p: nat)
    requires SortedEntries(s, m) && SplitsAt(s, m, b, p)
    ensures Unwrap(s) == s[p..] + Raise(s[..p])
  {
    hide WidestGap, Raise, Ascending;
    WidestGapExact(s, |s|);
    var w := WidestGap(s, |s|);
    var line := s[p..] + Raise(s[..p]);
    if w.size > 0 {
      OnlyWideGap(s, m, b, p, w.at);
    }
    if p == 0 {
      RaiseNothing();
      assert s[..0] == [] && s[0..] == s;
    } else {
      OnlyWideGap(s, m, b, p, p);
      LineAscends(s, p);
      SortedAlready(line);
    }
  }

  lemma RaiseNothing()
    ensures Raise([]) == []
  {
  }

  /** Numbers of 16 bits, raised below any cut, still ascend. */
  lemma LineAscends(s: seq<Arrival>, p: nat)
    requires Ascending(s) && p <= |s| && forall j :: 0 <= j < |s| ==> 0 <= s[j].num < 0x1_0000
    ensures Ascending(s[p..] + Raise(s[..p]))
  {
    var line := s[p..] + Raise(s[..p]);
    var n := |s| - p;
    forall i, j | 0 <= i < j < |line| ensures line[i].num < line[j].num {
      assert i < n ==> line[i] == s[p + i];
      assert j < n ==> line[j] == s[p + j];
      assert i >= n ==> line[i].num == s[i - n].num + 0x1_0000;
      assert j >= n ==> line[j].num == s[j - n].num + 0x1_0000;
    }
  }

  lemma UnwrapAscends(s: seq<Arrival>)
    requires Ascending(s) && forall j :: 0 <= j < |s| ==> 0 <= s[j].num < 0x1_0000
    ensures Ascending(Unwrap(s)) && |Unwrap(s)| == |s|
  {
    WidestGapExact(s, |s|);
    var w := WidestGap(s, |s|);
    hide Ascending, WidestGap;
    if |s| >= 2 && w.size > 32768 {
      LineAscends(s, w.at);
      SortedAlready(s[w.at..] + Raise(s[..w.at]));
    }
  }

  lemma EntryPlace(s: seq<Arrival>, m: map<u16, int>, b: u16, p: nat, j: nat)
    requires SortedEntries(s, m) && SplitsAt(s, m, b, p) && j < |s|
    ensures 0 <= s[j].num < 0x1_0000 && s[j].num in m
    ensures Place(m, b, s[j].num) == (s[p..] + Raise(s[..p]))[if j >= p then j - p else |s| - p + j]
  {
    hide Ascending;
  }

  lemma LinePlaces(s: seq<Arrival>, m: map<u16, int>, b: u16, p: nat)
    requires SortedEntries(s, m) && SplitsAt(s, m, b, p)
    ensures IsLine(s[p..] + Raise(s[..p]), m, b)
  {
    var line := s[p..] + Raise(s[..p]);
    var n := |s| - p;
    LineAscends(s, p);
    assert |line| == |s|;
    hide Ascending, Place, SplitsAt, Raise;
    forall i | 0 <= i < |line| ensures exists k :: k in m && line[i] == Place(m, b, k) {
      var j := if i < n then p + i else i - n;
      EntryPlace(s, m, b, p, j);
    }
    forall k | k in m ensures Place(m, b, k) in line {
      assert Arrival(k, m[k]) in s;
      var j :| 0 <= j < |s| && s[j] == Arrival(k, m[k]);
      EntryPlace(s, m, b, p, j);
    }
  }

  /** Sorting and unwrapping lay the arrivals out in circular order from the base. */
  lemma UnwrapExact(s: seq<Arrival>, m: map<u16, int>, b: u16)
    requires SortedEntries(s, m) && Spans(m, b)
    ensures IsLine(Unwrap(s), m, b)
  {
    hide IsLine, Spans, SortedEntries, SplitsAt, Unwrap, Raise;
    var p := FindSplit(s, m, b);
    UnwrapCuts(s, m, b, p);
    LinePlaces(s, m, b, p);
  }

  /** Some arrival stands at position `x`. */
  ghost predicate Stands(line: seq<Arrival>, x: int) {
    exists j :: 0 <= j < |line| && line[j].num == x
  }

  lemma PlaceFacts(m: map<u16, int>, b: u16, k: u16)
    requires k in m && Spans(m, b)
    ensures var a := Place(m, b, k); b <= a.num < b + 32768 && Wrap(a.num) == k && a.time == m[k]
  {
    WrapForward(b, k);
    assert Wrap(b) == b;
  }

  /** The line starts at the base and stays within the span; each arrival keeps its number and time. */
  lemma LineFacts(line: seq<Arrival>, m: map<u16, int>, b: u16)
    requires IsLine(line, m, b) && Spans(m, b)
    ensures line != [] && line[0].num == b
    ensures forall j :: 0 <= j < |line| ==>
              b <= line[j].num < b + 32768 && Wrap(line[j].num) in m && line[j].time == m[Wrap(line[j].num)]
  {
    assert Place(m, b, b).num == b;
    hide Wrap, Ascending;
    forall j | 0 <= j < |line|
      ensures b <= line[j].num < b + 32768 && Wrap(line[j].num) in m && line[j].time == m[Wrap(line[j].num)]
    {
      var k :| k in m && line[j] == Place(m, b, k);
      PlaceFacts(m, b, k);
    }
  }

  /** A position of the line is taken exactly when its number was recorded. */
  lemma LineStands(line: seq<Arrival>, m: map<u16, int>, b: u16, d: nat)
    requires IsLine(line, m, b) && Spans(m, b) && d < 32768
    ensures Stands(line, b + d) <==> Wrap(b + d) in m
  {
    LineFacts(line, m, b);
    ForwardWrap(b, d);
    hide Wrap, Forward;
    if Wrap(b + d) in m {
      assert Place(m, b, Wrap(b + d)) in line;
    }
  }

  // ------------------------------------------------------------------
  // The status list
  // ------------------------------------------------------------------

  /** One status for each of `count` numbers from `next` on; deltas count from the last arrival reported. */
  function Statuses(line: seq<Arrival>, next: int, prev: int, count: nat): seq<Status>
    decreases count
  {
    if count == 0 then []
    else if line != [] && line[0].num == next then
      [Received((line[0].time - prev) * 1000)] + Statuses(line[1..], next + 1, line[0].time, count - 1)
    else
      [NotReceived] + Statuses(line, next + 1, prev, count - 1)
  }

  lemma {:induction false} StatusesLength(line: seq<Arrival>, next: int, prev: int, count: nat)
    ensures |Statuses(line, next, prev, count)| == count
    decreases count
  {
    if count > 0 {
      if line != [] && line[0].num == next {
        StatusesLength(line[1..], next + 1, line[0].time, count - 1);
      } else {
        StatusesLength(line, next + 1, prev, count - 1);
      }
    }
  }

  /** Steps the delta encoding can hold. */
  ghost predicate Steady(line: seq<Arrival>, prev: int) {
    line == [] || (-8192 <= line[0].time - prev <= 8191 && Steady(line[1..], line[0].time))
  }

  /** Time told by the first `n` entries of a report, in microseconds. */
  function Elapsed(packets: seq<Parsed>, n: nat): int
    requires n <= |packets|
    decreases n
  {
    if n == 0 then 0
    else (if packets[0].deltaUs.Some? then packets[0].deltaUs.value else 0) + Elapsed(packets[1..], n - 1)
  }

  /** A whole-millisecond step survives the 250 microsecond units. */
  lemma MillisecondStep(d: int)
    requires -8192 <= d <= 8191
    ensures Quantize(d * 1000) == 4 * d && SymbolOf(Received(d * 1000)) != 0
  {
  }

  /** What the report says of position `i`, counted from `next`. */
  ghost predicate Tells(line: seq<Arrival>, next: int, prev: int, num: u16, told: seq<Parsed>, i: nat)
    requires i < |told|
  {
    && told[i].num == Wrap(num + i)
    && (told[i].received <==> Stands(line, next + i))
    && forall j :: 0 <= j < |line| && line[j].num == next + i ==> Elapsed(told, i + 1) == (line[j].time - prev) * 1000
  }

  /** The parsed entries for the numbers from `next` on: a delta in microseconds for each arrival, exact. */
  ghost predicate Relayed(told: seq<Parsed>, line: seq<Arrival>, next: int, prev: int, num: u16)
    decreases |told|
  {
    told == [] ||
    if line != [] && line[0].num == next then
      told[0] == Parsed(num, true, Some((line[0].time - prev) * 1000))
      && Relayed(told[1..], line[1..], next + 1, line[0].time, Next(num))
    else
      told[0] == Parsed(num, false, None) && Relayed(told[1..], line, next + 1, prev, Next(num))
  }

  /** Writing and reading the statuses loses nothing of steady whole-millisecond steps. */
  lemma {:induction false} StatusesRelayed(line: seq<Arrival>, next: int, prev: int, count: nat, num: u16)
    requires Steady(line, prev)
    ensures Relayed(AllTold(num, Statuses(line, next, prev, count)), line, next, prev, num)
    decreases count
  {
    hide Quantize;
    if count > 0 {
      var told := AllTold(num, Statuses(line, next, prev, count));
      if line != [] && line[0].num == next {
        MillisecondStep(line[0].time - prev);
        StatusesRelayed(line[1..], next + 1, line[0].time, count - 1, Next(num));
        assert told[1..] == AllTold(Next(num), Statuses(line[1..], next + 1, line[0].time, count - 1));
      } else {
        StatusesRelayed(line, next + 1, prev, count - 1, Next(num));
        assert told[1..] == AllTold(Next(num), Statuses(line, next + 1, prev, count - 1));
      }
    }
  }

  /** The report tells exactly which numbers were recorded, and the time of each from the start. */
  lemma {:induction false} StatusesTold(told: seq<Parsed>, line: seq<Arrival>, next: int, prev: int, num: u16, i: nat)
    requires Ascending(line) && forall j :: 0 <= j < |line| ==> next <= line[j].num
    requires Relayed(told, line, next, prev, num) && i < |told|
    ensures Tells(line, next, prev, num, told, i)
    decreases |told|
  {
    var first, rest := told[0], told[1..];
    assert told == [first] + rest;
    if line != [] && line[0].num == next {
      if i > 0 {
        StatusesTold(rest, line[1..], next + 1, line[0].time, Next(num), i - 1);
      }
    } else {
      if i > 0 {
        StatusesTold(rest, line, next + 1, prev, Next(num), i - 1);
      }
      TellsMissing(line, next, prev, num, first, rest, i);
    }
  }

  lemma TellsMissing(line: seq<Arrival>, next: int, prev: int, num: u16, first: Parsed, rest: seq<Parsed>, i: nat)
    requires (forall j :: 0 <= j < |line| ==> line[j].num > next) && i <= |rest|
    requires first == Parsed(num, false, None)
    requires i > 0 ==> Tells(line, next + 1, prev, Next(num), rest, i - 1)
    ensures Tells(line, next, prev, num, [first] + rest, i)
  {
    var told := [first] + rest;
    assert told[1..] == rest;
    NumberAhead(num, i);
  }

  lemma NumberAhead(num: u16, i: nat)
    ensures i > 0 ==> Wrap(Next(num) + (i - 1)) == Wrap(num + i)
    ensures Wrap(num) == num
  {
  }

  lemma {:induction false} AllToldLength(num: u16, packets: seq<Status>)
    ensures |AllTold(num, packets)| == |packets|
    decreases |packets|
  {
    if packets != [] {
      AllToldLength(Next(num), packets[1..]);
    }
  }

  // ------------------------------------------------------------------
  // The generator
  // ------------------------------------------------------------------

  datatype Gen = Gen(senderSsrc: u32, mediaSsrc: u32, fbPktCount: byte, arrivals: Arrivals)

  // ------------------------------------------------------------------
  // What was heard
  // ------------------------------------------------------------------

  /** A packet's arrival, as the caller reports it. */
  datatype Heard = Heard(num: u16, time: int)

  /** Every number heard, with the time it was first heard: earlier entries are laid over later ones. */
  ghost function Firsts(heard: seq<Heard>): map<u16, int> {
    if heard == [] then map[] else Firsts(heard[1..])[heard[0].num := heard[0].time]
  }

  /** What that map says: a number is in it exactly when it was heard, at the time of its first hearing. */
  lemma {:induction false} FirstsExact(heard: seq<Heard>, i: nat)
    ensures forall n :: n in Firsts(heard) <==> exists k :: 0 <= k < |heard| && heard[k].num == n
    ensures i < |heard| && (forall k :: 0 <= k < i ==> heard[k].num != heard[i].num)
        ==> Firsts(heard)[heard[i].num] == heard[i].time
    decreases |heard|
  {
    if heard != [] {
      var rest := heard[1..];
      FirstsExact(rest, if i > 0 then i - 1 else 0);
      forall n: u16 ensures n in Firsts(heard) <==> exists k :: 0 <= k < |heard| && heard[k].num == n {
        if k :| 0 <= k < |heard| && heard[k].num == n && k > 0 {
          assert rest[k - 1].num == n;
        }
        if k :| 0 <= k < |rest| && rest[k].num == n {
          assert heard[k + 1].num == n;
        }
        assert heard[0].num == n ==> n in Firsts(heard);
      }
      if 0 < i < |heard| && (forall k :: 0 <= k < i ==> heard[k].num != heard[i].num) {
        assert heard[i] == rest[i - 1] && heard[0].num != heard[i].num;
        assert forall k :: 0 <= k < i - 1 ==> rest[k] == heard[k + 1];
      }
    }
  }

  /** One more arrival counts only when its number was not heard before. */
  lemma {:induction false} FirstsAppend(heard: seq<Heard>, x: Heard)
    ensures Firsts(heard + [x]) == if x.num in Firsts(heard) then Firsts(heard) else Firsts(heard)[x.num := x.time]
    decreases |heard|
  {
    if heard != [] {
      assert (heard + [x])[1..] == heard[1..] + [x];
      FirstsAppend(heard[1..], x);
    }
  }

  function Line(m: Arrivals): (line: seq<Arrival>)
    requires m.Valid() && m.keys != []
    ensures Ascending(line) && line != []
  {
    EntriesSorted(m);
    var s := SortByNum(Entries(m.keys, m.vals));
    assert Arrival(m.keys[0], m.vals[m.keys[0]]) in s;
    UnwrapAscends(s);
    Unwrap(s)
  }

  /** The feedback for the arrivals since the last one. */
  function ReportOf(g: Gen): (f: Feedback)
    requires g.arrivals.Valid() && g.arrivals.keys != []
    ensures |f.packets| < 0x1_0000
  {
    var line := Line(g.arrivals);
    var first, last := line[0], line[|line| - 1];
    var span := last.num - first.num + 1;
    var packetCount := if span > 0xFFFF then 0xFFFF else span;
    var refTimeMs := first.time / 64 * 64;
    StatusesLength(line, first.num, refTimeMs, packetCount);
    Feedback(g.senderSsrc, g.mediaSsrc, Wrap(first.num), refTimeMs, g.fbPktCount,
             Statuses(line, first.num, refTimeMs, packetCount))
  }

  /** What a receiver of the report learns. */
  ghost predicate Exact(r: Report, m: map<u16, int>, b: u16) {
    && r.baseSeq == b && |r.packets| == r.packetCount > 0
    && (forall k :: k in m ==> Forward(b, k) < r.packetCount)
    && (forall d :: 0 <= d < r.packetCount ==>
          r.packets[d].num == Wrap(b + d) && (r.packets[d].received <==> Wrap(b + d) in m))
    && r.packets[r.packetCount - 1].received
  }

  /** The time the report gives a recorded number, from the reference time on, in microseconds. */
  function ToldTime(r: Report, b: u16, k: u16): int
    requires Forward(b, k) < |r.packets|
  {
    Elapsed(r.packets, Forward(b, k) + 1)
  }

  /** The time between any two recorded numbers; also the absolute time when that fits 24 bits of 64 ms. */
  ghost predicate ExactTimes(r: Report, m: map<u16, int>, b: u16)
    requires b in m && forall k :: k in m ==> Forward(b, k) < |r.packets|
  {
    && (forall j, k :: j in m && k in m ==> ToldTime(r, b, j) - ToldTime(r, b, k) == 1000 * (m[j] - m[k]))
    && (-0x80_0000 <= m[b] / 64 <= 0x7F_FFFF ==>
          forall k :: k in m ==> 1000 * r.referenceTimeMs + ToldTime(r, b, k) == 1000 * m[k])
  }

  /** Numbers within 32768 of each other, wrapped or not, and whole-millisecond steps of at most about eight
      seconds: the parsed report names exactly the recorded numbers, in circular order, with exact times. */
  lemma FeedbackExact(g: Gen, b: u16)
    requires g.arrivals.Valid() && g.arrivals.keys != [] && Spans(g.arrivals.vals, b)
    requires var line := Line(g.arrivals); Steady(line[1..], line[0].time)
    ensures var m := g.arrivals.vals;
            var parsed := Parse(Build(ReportOf(g))[12..]);
            && parsed.Some? && parsed.value.fbPktCount == g.fbPktCount
            && Exact(parsed.value, m, b) && ExactTimes(parsed.value, m, b)
  {
    hide Build, Parse, Statuses, AllTold, IsLine, RefUnits, Line, ReportOf, Exact, ExactTimes;
    LineIsLine(g.arrivals, b);
    LineFacts(Line(g.arrivals), g.arrivals.vals, b);
    ReportShape(g, b);
    BuildParses(ReportOf(g));
    ReportExact(Line(g.arrivals), g.arrivals.vals, b, ReportOf(g));
  }

  /** No recorded number lies between these two on the circle from `b`. */
  ghost predicate NextOn(m: map<u16, int>, b: u16, j: u16, k: u16) {
    && j in m && k in m && Forward(b, j) < Forward(b, k)
    && forall l :: l in m ==> Forward(b, l) <= Forward(b, j) || Forward(b, k) <= Forward(b, l)
  }

  /** Neighbours on the circle were heard at most about eight seconds apart. */
  ghost predicate SteadyTimes(m: map<u16, int>, b: u16) {
    forall j, k :: NextOn(m, b, j, k) ==> -8192 <= m[k] - m[j] <= 8191
  }

  lemma Between(line: seq<Arrival>, m: map<u16, int>, b: u16, i: nat, l: u16)
    requires Ascending(line) && i + 1 < |line| && l in m && Place(m, b, l) in line
    ensures Place(m, b, l).num <= line[i].num || line[i + 1].num <= Place(m, b, l).num
  {
    hide Place;
    var n :| 0 <= n < |line| && line[n] == Place(m, b, l);
  }

  lemma Neighbours(line: seq<Arrival>, m: map<u16, int>, b: u16, i: nat)
    requires IsLine(line, m, b) && SteadyTimes(m, b) && i + 1 < |line|
    ensures -8192 <= line[i + 1].time - line[i].time <= 8191
  {
    hide Ascending, SteadyTimes;
    var a, c := line[i], line[i + 1];
    var j :| j in m && a == Place(m, b, j);
    var k :| k in m && c == Place(m, b, k);
    assert a.num < c.num by { InOrder(line, i); }
    hide Forward;
    forall l | l in m ensures Forward(b, l) <= Forward(b, j) || Forward(b, k) <= Forward(b, l) {
      Between(line, m, b, i, l);
    }
    SteadyStep(m, b, j, k);
  }

  lemma InOrder(line: seq<Arrival>, i: nat)
    requires Ascending(line) && i + 1 < |line|
    ensures line[i].num < line[i + 1].num
  {
  }

  lemma SteadyStep(m: map<u16, int>, b: u16, j: u16, k: u16)
    requires SteadyTimes(m, b) && NextOn(m, b, j, k)
    ensures -8192 <= m[k] - m[j] <= 8191
  {
  }

  lemma {:induction false} LineSteady(line: seq<Arrival>, m: map<u16, int>, b: u16, i: nat)
    requires IsLine(line, m, b) && Spans(m, b) && SteadyTimes(m, b) && i < |line|
    ensures Steady(line[i + 1..], line[i].time)
    decreases |line| - i
  {
    hide IsLine, Spans, SteadyTimes;
    if i + 1 < |line| {
      Neighbours(line, m, b, i);
      LineSteady(line, m, b, i + 1);
      assert line[i + 1..][1..] == line[i + 2..];
    }
  }

  /** Over what was heard since the last feedback: when the numbers lie within 32768 of each other, wrapped or not,
      and neighbours on the circle were heard at most about eight seconds apart, the parsed report names exactly the
      numbers heard, in circular order, each with the time it was first heard. */
  lemma HeardIsReported(g: Gen, heard: seq<Heard>, b: u16)
    requires g.arrivals.Valid() && g.arrivals.vals == Firsts(heard)
    requires Spans(Firsts(heard), b) && SteadyTimes(Firsts(heard), b)
    ensures g.arrivals.keys != []
    ensures var parsed := Parse(Build(ReportOf(g))[12..]);
            && parsed.Some? && parsed.value.fbPktCount == g.fbPktCount
            && Exact(parsed.value, Firsts(heard), b) && ExactTimes(parsed.value, Firsts(heard), b)
  {
    hide Build, Parse, ReportOf, Exact, ExactTimes, Firsts, Line, IsLine, SteadyTimes, Steady;
    assert b in g.arrivals.vals && b in g.arrivals.keys;
    hide Spans;
    LineIsLine(g.arrivals, b);
    LineFacts(Line(g.arrivals), g.arrivals.vals, b);
    LineSteady(Line(g.arrivals), g.arrivals.vals, b, 0);
    FeedbackExact(g, b);
  }

  lemma ReportExact(line: seq<Arrival>, m: map<u16, int>, b: u16, f: Feedback)
    requires IsLine(line, m, b) && Spans(m, b) && line != [] && Steady(line[1..], line[0].time)
    requires f.baseSeq == b && f.referenceTimeMs == m[b] / 64 * 64 && m[b] == line[0].time
    requires |f.packets| == line[|line| - 1].num - b + 1 < 0x1_0000
    requires f.packets == Statuses(line, b, f.referenceTimeMs, |f.packets|)
    ensures var r := Report(b, |f.packets|, RefUnits(f.referenceTimeMs) * 64, f.fbPktCount, AllTold(b, f.packets));
            Exact(r, m, b) && ExactTimes(r, m, b)
  {
    assert Steady(line, f.referenceTimeMs);
    LineFacts(line, m, b);
    StatusesAllTell(line, b, f.referenceTimeMs, |f.packets|);
    hide Statuses, Steady, RefUnits, AllTold, AllTell;
    ToldExact(line, m, b, f, AllTold(b, f.packets));
  }

  lemma ToldExact(line: seq<Arrival>, m: map<u16, int>, b: u16, f: Feedback, told: seq<Parsed>)
    requires IsLine(line, m, b) && Spans(m, b) && line != []
    requires f.referenceTimeMs == m[b] / 64 * 64 && m[b] == line[0].time
    requires |told| == |f.packets| == line[|line| - 1].num - b + 1 < 0x1_0000
    requires AllTell(line, b, f.referenceTimeMs, told)
    ensures var r := Report(b, |f.packets|, RefUnits(f.referenceTimeMs) * 64, f.fbPktCount, told);
            Exact(r, m, b) && ExactTimes(r, m, b)
  {
    var r := Report(b, |f.packets|, RefUnits(f.referenceTimeMs) * 64, f.fbPktCount, told);
    hide AllTell, RefUnits, ExactTimes;
    ReportTells(line, m, b, f.referenceTimeMs, told);
    hide IsLine;
    TimesFollow(r, m, b, f.referenceTimeMs);
  }

  lemma LineIsLine(arrivals: Arrivals, b: u16)
    requires arrivals.Valid() && arrivals.keys != [] && Spans(arrivals.vals, b)
    ensures IsLine(Line(arrivals), arrivals.vals, b)
  {
    hide IsLine, Spans, SortedEntries;
    EntriesSorted(arrivals);
    UnwrapExact(SortByNum(Entries(arrivals.keys, arrivals.vals)), arrivals.vals, b);
  }

  lemma ReportShape(g: Gen, b: u16)
    requires g.arrivals.Valid() && g.arrivals.keys != []
    requires var line := Line(g.arrivals); line[0].num == b && line[|line| - 1].num < b + 32768
    ensures var f := ReportOf(g);
            var line := Line(g.arrivals);
            && f.baseSeq == b && f.fbPktCount == g.fbPktCount
            && Wrap(b) == b
            && f.referenceTimeMs == line[0].time / 64 * 64
            && |f.packets| == line[|line| - 1].num - b + 1
            && f.packets == Statuses(line, b, f.referenceTimeMs, |f.packets|)
  {
    hide Line, Statuses;
    assert Wrap(b) == b;
    var line := Line(g.arrivals);
    var f := ReportOf(g);
    var count := line[|line| - 1].num - b + 1;
    assert count > 0 by {
      assert Ascending(line);
    }
    StatusesLength(line, b, f.referenceTimeMs, count);
  }

  lemma TimesFollow(r: Report, m: map<u16, int>, b: u16, refTimeMs: int)
    requires b in m && r.referenceTimeMs == RefUnits(refTimeMs) * 64 && refTimeMs == m[b] / 64 * 64
    requires forall k :: k in m ==> Forward(b, k) < |r.packets| && ToldTime(r, b, k) == (m[k] - refTimeMs) * 1000
    ensures ExactTimes(r, m, b)
  {
    hide Elapsed;
    assert refTimeMs / 64 == m[b] / 64;
  }

  /** Every position of the report tells its status. */
  ghost predicate AllTell(line: seq<Arrival>, b: u16, prev: int, told: seq<Parsed>) {
    forall d :: 0 <= d < |told| ==> Tells(line, b, prev, b, told, d)
  }

  lemma StatusesAllTell(line: seq<Arrival>, b: u16, prev: int, count: nat)
    requires Ascending(line) && Steady(line, prev) && forall j :: 0 <= j < |line| ==> b <= line[j].num
    ensures |AllTold(b, Statuses(line, b, prev, count))| == count
    ensures AllTell(line, b, prev, AllTold(b, Statuses(line, b, prev, count)))
  {
    hide Tells, Ascending, Steady;
    StatusesLength(line, b, prev, count);
    AllToldLength(b, Statuses(line, b, prev, count));
    StatusesRelayed(line, b, prev, count, b);
    var told := AllTold(b, Statuses(line, b, prev, count));
    forall d | 0 <= d < count ensures Tells(line, b, prev, b, told, d) {
      StatusesTold(told, line, b, prev, b, d);
    }
  }

  /** What such a report says about the recorded numbers. */
  lemma ReportTells(line: seq<Arrival>, m: map<u16, int>, b: u16, prev: int, told: seq<Parsed>)
    requires IsLine(line, m, b) && Spans(m, b) && line != [] && AllTell(line, b, prev, told)
    requires |told| == line[|line| - 1].num - b + 1
    ensures forall d :: 0 <= d < |told| ==> told[d].num == Wrap(b + d) && (told[d].received <==> Wrap(b + d) in m)
    ensures forall k :: k in m ==> Forward(b, k) < |told| && Elapsed(told, Forward(b, k) + 1) == (m[k] - prev) * 1000
    ensures |told| > 0 && told[|told| - 1].received
  {
    LineFacts(line, m, b);
    forall d | 0 <= d < |told| ensures told[d].num == Wrap(b + d) && (told[d].received <==> Wrap(b + d) in m) {
      assert Tells(line, b, prev, b, told, d);
      LineStands(line, m, b, d);
    }
    assert Tells(line, b, prev, b, told, |told| - 1);
    assert Stands(line, b + (|told| - 1));
    forall k | k in m ensures Forward(b, k) < |told| && Elapsed(told, Forward(b, k) + 1) == (m[k] - prev) * 1000 {
      TellsTime(line, m, b, prev, told, k);
    }
  }

  lemma TellsTime(line: seq<Arrival>, m: map<u16, int>, b: u16, prev: int, told: seq<Parsed>, k: u16)
    requires IsLine(line, m, b) && line != [] && AllTell(line, b, prev, told) && k in m
    requires |told| == line[|line| - 1].num - b + 1
    ensures Forward(b, k) < |told| && Elapsed(told, Forward(b, k) + 1) == (m[k] - prev) * 1000
  {
    assert Place(m, b, k) in line;
    var j :| 0 <= j < |line| && line[j] == Place(m, b, k);
    assert line[j].num <= line[|line| - 1].num;
    assert Tells(line, b, prev, b, told, Forward(b, k));
  }

  // ------------------------------------------------------------------
  // The object
  // ------------------------------------------------------------------

  class TransportCCFeedbackGenerator {
    const senderSsrc: u32
    var mediaSsrc: u32
    var fbPktCount: byte
    var arrivalMap: Arrivals
    /** What was heard since the last feedback. */
    ghost var heard: seq<Heard>

    function Abs(): Gen
      reads this
    {
      Gen(senderSsrc, mediaSsrc, fbPktCount, arrivalMap)
    }

    ghost predicate Valid()
      reads this
    {
      arrivalMap.Valid() && arrivalMap.vals == Firsts(heard)
    }

    constructor (senderSsrc: u32, mediaSsrc: u32)
      ensures Valid() && Abs() == Gen(senderSsrc, mediaSsrc, 0, Map([], map[])) && heard == []
    {
      heard := [];
      this.senderSsrc, this.mediaSsrc, fbPktCount, arrivalMap := senderSsrc, mediaSsrc, 0, Map([], map[]);
    }

    method RecordArrival(num: u16, timeMs: int)
      requires Valid()
      modifies this`arrivalMap, this`heard
      ensures Valid() && heard == old(heard) + [Heard(num, timeMs)]
      ensures Abs() == old(Abs()).(arrivals := arrivalMap)
      ensures arrivalMap.keys ==
                if num in old(arrivalMap).vals then old(arrivalMap).keys else old(arrivalMap).keys + [num]
    {
      FirstsAppend(heard, Heard(num, timeMs));
      heard := heard + [Heard(num, timeMs)];
      if arrivalMap.Has(num) {
        return;
      }
      arrivalMap.SetValid(num, timeMs);
      arrivalMap := arrivalMap.Set(num, timeMs);
    }

    /** Nothing when nothing arrived; otherwise the feedback packet, and the arrivals are cleared. */
    method BuildFeedback() returns (pkt: Option<Bytes>)
      requires Valid()
      modifies this
      ensures Valid() && heard == []
      ensures pkt.None? <==> old(heard) == []
      ensures if old(heard) == [] then Abs() == old(Abs())
              else old(arrivalMap).keys != [] && pkt == Some(Build(ReportOf(old(Abs())))) &&
                   Abs() == old(Abs()).(fbPktCount := (old(fbPktCount) + 1) % 0x100, arrivals := Map([], map[]))
    {
      hide Build, Unwrap, Statuses, Firsts;
      FirstsExact(heard, 0);
      NoneHeard(arrivalMap, heard);
      if arrivalMap.Size() == 0 {
        return None;
      }
      EntriesSorted(arrivalMap);
      var arrs := SortByNum(Entries(arrivalMap.keys, arrivalMap.vals));
      arrs := UnwrapInPlace(arrs);
      assert arrs == Line(arrivalMap);
      hide Line;
      var first := arrs[0];
      var packetCount := arrs[|arrs| - 1].num - first.num + 1;
      if packetCount > 0xFFFF {
        packetCount := 0xFFFF;
      }
      var refTimeMs := first.time / 64 * 64;
      StatusesLength(arrs, first.num, refTimeMs, packetCount);
      var packets := StatusList(arrs, refTimeMs, packetCount);
      var f := Feedback(senderSsrc, mediaSsrc, Wrap(first.num), refTimeMs, fbPktCount, packets);
      var buf := BuildTransportCC(f, packetCount);
      pkt := Some(buf);
      fbPktCount := ((fbPktCount as int) + 1) % 0x100;
      arrivalMap, heard := Map([], map[]), [];
      NothingFirst();
    }

    static method UnwrapInPlace(s: seq<Arrival>) returns (r: seq<Arrival>)
      ensures r == Unwrap(s)
    {
      r := s;
      if |s| >= 2 {
        var maxGap, gapAt := 0, -1;
        var i := 1;
        while i < |s|
          invariant 1 <= i <= |s| && WidestGap(s, i) == Gap(maxGap, gapAt)
        {
          var g := s[i].num - s[i - 1].num;
          if g > maxGap {
            maxGap, gapAt := g, i;
          }
          i := i + 1;
        }
        if maxGap > 32768 {
          WidestGapExact(s, |s|);
          var low, high := Raise(s[..gapAt]), s[gapAt..];
          r := SortByNum(high + low);
        }
      }
    }

    static method StatusList(line: seq<Arrival>, refTimeMs: int, count: nat) returns (packets: seq<Status>)
      requires line != []
      ensures packets == Statuses(line, line[0].num, refTimeMs, count)
    {
      packets := [];
      var ai, prev := 0, refTimeMs;
      assert line[0..] == line;
      var i := 0;
      while i < count
        invariant 0 <= i <= count && 0 <= ai <= |line|
        invariant packets + Statuses(line[ai..], line[0].num + i, prev, count - i)
               == Statuses(line, line[0].num, refTimeMs, count)
      {
        hide Ascending;
        ghost var rest := Statuses(line[ai..], line[0].num + i, prev, count - i);
        ghost var before := packets;
        if ai < |line| && line[ai].num == line[0].num + i {
          assert line[ai..][1..] == line[ai + 1..];
          packets := packets + [Received((line[ai].time - prev) * 1000)];
          prev := line[ai].time;
          ai := ai + 1;
        } else {
          packets := packets + [NotReceived];
        }
        ghost var s := packets[|before|];
        assert rest == [s] + rest[1..] && before + ([s] + rest[1..]) == packets + rest[1..];
        i := i + 1;
      }
    }
  }

  lemma NoneHeard(m: Arrivals, heard: seq<Heard>)
    requires m.Valid() && m.vals == Firsts(heard)
    ensures m.keys == [] <==> heard == []
  {
    if heard != [] {
      assert heard[0].num in Firsts(heard);
      assert heard[0].num in m.keys;
    }
    if m.keys != [] {
      assert m.keys[0] in m.keys;
    }
  }

  lemma NothingFirst()
    ensures Firsts([]) == map[]
  {
  }
}
