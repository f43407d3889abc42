/**
 Packet indices and replay protection of src/srtp.js.

 The cipher is idealised: a packet authenticates exactly when the receiver's guess of the rollover
 count is the one the sender protected it with. The 128-bit window, four 32-bit words shifted in
 place, is shown to be the plain set of accepted indices.
 */
module SrtpModel {
  import opened Bits
  import opened Options
  import opened SeqNum
  import opened Wire

  /** The 48-bit packet index of section 3.3.1 of RFC 3711. */
  type Index = n: int | 0 <= n < 0x1_0000_0000_0000

  const REPLAY_WINDOW := 128

  // ------------------------------------------------------------------
  // The bitmap
  // ------------------------------------------------------------------

  type Bitmap = s: seq<u32> | |s| == 4 witness [0, 0, 0, 0]

  /** Bit `d` of the map: the index `d` below the maximum was seen. */
  ghost predicate Seen(bm: Bitmap, d: nat)
    requires d < 128
  {
    Bit(bm[d / 32], d % 32)
  }

  lemma Word(n: nat)
    ensures n < 0x1_0000_0000 <==> n < Pow2(32)
  {
    Pow2Words();
  }

  /** A word moved up by `b` bits, filled from the word below. */
  function Merge(v: u32, below: u32, b: nat): (w: u32)
    requires b < 32
  {
    if b == 0 then v
    else
      MergeFits(v, b, below);
      Or(Low(Shl(v, b), 32), Shr(below, 32 - b))
  }

  function WordAt(bm: Bitmap, j: int): u32
    requires j < 4
  {
    if j >= 0 then bm[j] else 0
  }

  /** Word `i` of the bitmap shifted by `n`. */
  function ShiftedWord(bm: Bitmap, n: nat, i: nat): (w: u32)
    requires n < 128 && i < 4
  {
    Merge(WordAt(bm, i - n / 32), WordAt(bm, i - n / 32 - 1), n % 32)
  }

  /** Word `i` of a shift reads no word above `i`. */
  lemma ShiftedWordLocal(a: Bitmap, b: Bitmap, n: nat, i: nat)
    requires n < 128 && i < 4 && forall j :: 0 <= j <= i ==> a[j] == b[j]
    ensures ShiftedWord(a, n, i) == ShiftedWord(b, n, i)
  {
  }

  lemma MergeFits(v: u32, b: nat, below: u32)
    requires 0 < b < 32
    ensures Or(Low(Shl(v, b), 32), Shr(below, 32 - b)) < 0x1_0000_0000
  {
    LowBound(Shl(v, b), 32);
    Word(below);
    ShrBound(below, 32 - b, b);
    Pow2Monotone(b, 32);
    OrBound(Low(Shl(v, b), 32), Shr(below, 32 - b), 32);
    Word(Or(Low(Shl(v, b), 32), Shr(below, 32 - b)));
  }

  function Shifted(bm: Bitmap, n: nat): Bitmap {
    if n >= 128 then [0, 0, 0, 0]
    else [ShiftedWord(bm, n, 0), ShiftedWord(bm, n, 1), ShiftedWord(bm, n, 2), ShiftedWord(bm, n, 3)]
  }

  lemma MergeBit(v: u32, below: u32, b: nat, k: nat)
    requires b < 32 && k < 32
    ensures Bit(Merge(v, below, b), k) == if k >= b then Bit(v, k - b) else Bit(below, k + 32 - b)
  {
    if b > 0 {
      BitOr(Low(Shl(v, b), 32), Shr(below, 32 - b), k);
      BitLow(Shl(v, b), 32, k);
      BitShl(v, b, k);
      BitShr(below, 32 - b, k);
      if k >= b {
        Word(below);
        BitAbove(below, 32, k + (32 - b));
      }
    }
  }

  lemma ShiftedWordBit(bm: Bitmap, n: nat, i: nat, k: nat)
    requires n < 128 && i < 4 && k < 32
    ensures var d := 32 * i + k;
            Bit(ShiftedWord(bm, n, i), k) == (d >= n && Seen(bm, d - n))
  {
    hide Bit, Merge;
    var wordShift, bitShift := n / 32, n % 32;
    var d := 32 * i + k;
    MergeBit(WordAt(bm, i - wordShift), WordAt(bm, i - wordShift - 1), bitShift, k);
    BitZero(if k >= bitShift then k - bitShift else k + 32 - bitShift);
    if d >= n {
      if k >= bitShift {
        assert (d - n) / 32 == i - wordShift && (d - n) % 32 == k - bitShift;
      } else {
        assert (d - n) / 32 == i - wordShift - 1 && (d - n) % 32 == k + 32 - bitShift;
      }
    }
  }

  lemma {:induction false} ShrZero(s: nat)
    ensures Shr(0, s) == 0
    decreases s
  {
    if s > 0 {
      ShrZero(s - 1);
    }
  }

  /** Shifting moves every seen distance up by `n`, across word boundaries. */
  lemma ShiftedSeen(bm: Bitmap, n: nat, d: nat)
    requires d < 128
    ensures Seen(Shifted(bm, n), d) == (d >= n && Seen(bm, d - n))
  {
    if n >= 128 {
      BitZero(d % 32);
    } else {
      ShiftedWordBit(bm, n, d / 32, d % 32);
    }
  }

  function SetBit(bm: Bitmap, d: nat): Bitmap
    requires d < 128
  {
    SetBitFits(bm[d / 32], d % 32);
    bm[d / 32 := Or(bm[d / 32], Shl(1, d % 32))]
  }

  lemma SetBitFits(w: u32, k: nat)
    requires k < 32
    ensures Or(w, Shl(1, k)) < 0x1_0000_0000
  {
    ShlBound(1, k, 1);
    Pow2Monotone(k + 1, 32);
    Word(w);
    OrBound(w, Shl(1, k), 32);
    Word(Or(w, Shl(1, k)));
  }

  lemma SetBitSeen(bm: Bitmap, d: nat, e: nat)
    requires d < 128 && e < 128
    ensures Seen(SetBit(bm, d), e) == (e == d || Seen(bm, e))
  {
    if e / 32 == d / 32 {
      BitOr(bm[d / 32], Shl(1, d % 32), e % 32);
      BitShl(1, d % 32, e % 32);
      if e % 32 >= d % 32 {
        BitOne(e % 32 - d % 32);
      }
    }
  }

  // ------------------------------------------------------------------
  // The replay window
  // ------------------------------------------------------------------

  datatype Window = Window(maxIndex: int, bm: Bitmap)

  datatype Verdict = Verdict(ok: bool, w: Window)

  const NO_WINDOW := Window(-1, [0, 0, 0, 0])

  function CheckAndUpdate(w: Window, index: nat): Verdict {
    if w.maxIndex < 0 then
      Verdict(true, Window(index, [1, 0, 0, 0]))
    else if index > w.maxIndex then
      Verdict(true, Window(index, SetBit(Shifted(w.bm, index - w.maxIndex), 0)))
    else
      var d := w.maxIndex - index;
      if d >= REPLAY_WINDOW || Bit(w.bm[d / 32], d % 32) then Verdict(false, w)
      else Verdict(true, Window(w.maxIndex, SetBit(w.bm, d)))
  }

  /** `w` stands for the set of all indices accepted so far. */
  ghost predicate Represents(w: Window, accepted: set<nat>) {
    if accepted == {} then w == NO_WINDOW
    else
      && w.maxIndex in accepted
      && (forall i :: i in accepted ==> i <= w.maxIndex)
      && forall d :: 0 <= d < 128 ==> (Seen(w.bm, d) <==> w.maxIndex - d in accepted)
  }

  /** What the window is to compute, on the set alone: new, and not 128 or more below the maximum. */
  ghost predicate Fresh(accepted: set<nat>, index: nat) {
    && index !in accepted
    && forall i :: i in accepted ==> i < index + REPLAY_WINDOW
  }

  ghost function Accept(accepted: set<nat>, index: nat): set<nat> {
    if Fresh(accepted, index) then accepted + {index} else accepted
  }

  lemma FirstIndex(index: nat)
    ensures Represents(CheckAndUpdate(NO_WINDOW, index).w, {index})
  {
    forall d | 0 <= d < 128 ensures Seen([1, 0, 0, 0], d) <==> d == 0 {
      BitOne(d % 32);
      BitZero(d % 32);
    }
  }

  lemma NewMaximumBit(w: Window, accepted: set<nat>, index: nat, d: nat)
    requires Represents(w, accepted) && accepted != {} && index > w.maxIndex && d < 128
    ensures Seen(SetBit(Shifted(w.bm, index - w.maxIndex), 0), d) <==> d == 0 || index - d in accepted
  {
    hide Seen, Shifted, SetBit;
    var shift := index - w.maxIndex;
    SetBitSeen(Shifted(w.bm, shift), 0, d);
    ShiftedSeen(w.bm, shift, d);
    if d >= shift {
      assert Seen(w.bm, d - shift) <==> w.maxIndex - (d - shift) in accepted;
    }
  }

  lemma NewMaximum(w: Window, accepted: set<nat>, index: nat)
    requires Represents(w, accepted) && accepted != {} && index > w.maxIndex
    ensures Represents(CheckAndUpdate(w, index).w, accepted + {index})
  {
    hide Seen, Shifted, SetBit;
    var bm := SetBit(Shifted(w.bm, index - w.maxIndex), 0);
    assert w.maxIndex >= 0;
    assert CheckAndUpdate(w, index).w == Window(index, bm);
    hide CheckAndUpdate;
    assert index in accepted + {index};
    forall d | 0 <= d < 128 ensures Seen(bm, d) <==> index - d in accepted + {index} {
      NewMaximumBit(w, accepted, index, d);
    }
  }

  lemma OldIndex(w: Window, accepted: set<nat>, index: nat)
    requires Represents(w, accepted) && accepted != {} && index <= w.maxIndex
    ensures CheckAndUpdate(w, index).ok <==> Fresh(accepted, index)
    ensures Represents(CheckAndUpdate(w, index).w, Accept(accepted, index))
  {
    var v := CheckAndUpdate(w, index);
    var d := w.maxIndex - index;
    if d < REPLAY_WINDOW {
      assert Seen(w.bm, d) <==> index in accepted;
      if v.ok {
        forall e | 0 <= e < 128 ensures Seen(v.w.bm, e) <==> w.maxIndex - e in accepted + {index} {
          hide Seen, SetBit;
          SetBitSeen(w.bm, d, e);
        }
      }
    }
  }

  /** The packed bitmap refines the plain set. */
  lemma WindowRefinesSet(w: Window, accepted: set<nat>, index: nat)
    requires Represents(w, accepted)
    ensures CheckAndUpdate(w, index).ok <==> Fresh(accepted, index)
    ensures Represents(CheckAndUpdate(w, index).w, Accept(accepted, index))
  {
    if accepted == {} {
      FirstIndex(index);
      assert accepted + {index} == {index};
    } else if index > w.maxIndex {
      hide Seen, Shifted, SetBit;
      NewMaximum(w, accepted, index);
    } else {
      hide Seen, Shifted, SetBit;
      OldIndex(w, accepted, index);
    }
  }

  // Any history of indices.

  ghost function AcceptedBy(history: seq<nat>): set<nat> {
    if history == [] then {} else Accept(AcceptedBy(history[..|history| - 1]), history[|history| - 1])
  }

  ghost function WindowAfter(history: seq<nat>): Window {
    if history == [] then NO_WINDOW else CheckAndUpdate(WindowAfter(history[..|history| - 1]), history[|history| - 1]).w
  }

  /** After any history the window decides the next index exactly as the set of all accepted does. */
  lemma {:induction false} HistoryRefined(history: seq<nat>, index: nat)
    ensures Represents(WindowAfter(history), AcceptedBy(history))
    ensures CheckAndUpdate(WindowAfter(history), index).ok <==> Fresh(AcceptedBy(history), index)
    decreases |history|
  {
    if history != [] {
      var before := history[..|history| - 1];
      HistoryRefined(before, history[|history| - 1]);
      WindowRefinesSet(WindowAfter(before), AcceptedBy(before), history[|history| - 1]);
    }
    WindowRefinesSet(WindowAfter(history), AcceptedBy(history), index);
  }

  // ------------------------------------------------------------------
  // Indices at the sender and the receiver
  // ------------------------------------------------------------------

  /** The index the sender gives to number `s`, `max` being its highest index so far. */
  function SendIndex(max: Option<nat>, s: u16): nat {
    match max
    case None => s
    case Some(m) =>
      var roc, lastSeq := m / 0x1_0000, m % 0x1_0000;
      var rolled := if s < 0x8000 && lastSeq > 0xC000 then (roc + 1) % 0x1_0000_0000 else roc;
      rolled * 0x1_0000 + s
  }

  function SendMax(max: Option<nat>, index: nat): nat {
    match max
    case None => index
    case Some(m) => if index > m then index else m
  }

  /** The rollover count the receiver assumes for number `s`. */
  function GuessRoc(max: Option<nat>, s: u16): nat {
    match max
    case None => 0
    case Some(m) =>
      var roc, lastSeq := m / 0x1_0000, m % 0x1_0000;
      if lastSeq < 0x8000 then
        if s - lastSeq > 0x8000 then (if roc == 0 then 0 else roc - 1) else roc
      else
        if lastSeq - 0x8000 > s then (roc + 1) % 0x1_0000_0000 else roc
  }

  /** A forward step of `d` is indexed right exactly when it stays in the same rollover, or rolls over
      from above 0xC000 to below 0x8000. Every step below 0x4000 does. */
  lemma SenderExact(m: Index, d: nat)
    requires d < 0x1_0000 && m + d < 0x1_0000_0000_0000
    ensures var s := m % 0x1_0000;
            SendIndex(Some(m), Wrap(m + d)) == m + d <==> s + d < 0x1_0000 || (s > 0xC000 && s + d < 0x1_8000)
    ensures d < 0x4000 ==> SendIndex(Some(m), Wrap(m + d)) == m + d
  {
    var roc, lastSeq := m / 0x1_0000, m % 0x1_0000;
    if lastSeq + d < 0x1_0000 {
      assert Wrap(m + d) == lastSeq + d;
    } else {
      assert Wrap(m + d) == lastSeq + d - 0x1_0000;
      assert roc + 1 < 0x1_0000_0000;
    }
  }

  /** A step of `e` back, to a packet sent again, is indexed right exactly when it stays in the same rollover and does
      not look like rolling over. */
  lemma SenderBack(m: Index, e: nat)
    requires e < 0x1_0000 && e <= m
    ensures var s := m % 0x1_0000;
            SendIndex(Some(m), Wrap(m - e)) == m - e <==> e <= s && (s <= 0xC000 || s - e >= 0x8000)
  {
    var roc, lastSeq := m / 0x1_0000, m % 0x1_0000;
    var s := if e <= lastSeq then lastSeq - e else lastSeq - e + 0x1_0000;
    assert Wrap(m - e) == s;
    hide Wrap;
    assert (roc + 1) % 0x1_0000_0000 == if roc == 0xFFFF_FFFF then 0 else roc + 1;
    assert m == roc * 0x1_0000 + lastSeq;
  }

  /** After the last rollover of 32 bits the indices start again at 0. */
  lemma SenderWraps(m: Index, d: nat)
    requires d < 0x1_0000 && m + d >= 0x1_0000_0000_0000
    ensures var s := m % 0x1_0000;
            SendIndex(Some(m), Wrap(m + d)) == m + d - 0x1_0000_0000_0000 <==> s > 0xC000 && s + d < 0x1_8000
  {
    var lastSeq := m % 0x1_0000;
    assert m / 0x1_0000 == 0xFFFF_FFFF;
    assert Wrap(m + d) == lastSeq + d - 0x1_0000;
  }

  /** Where the receiver's guess is right: half the number space around its maximum, except that it
      cannot guess below rollover 0, and that it rolls over after the last index of all. */
  predicate InReach(m: Index, i: Index) {
    if m % 0x1_0000 < 0x8000 then
      if m < 0x1_0000 then i < 0x1_0000 else -0x8000 < i - m <= 0x8000
    else
      -0x8000 <= i - m < 0x8000 || i + 0x1_0000_0000_0000 - m < 0x8000
  }

  lemma GuessExact(m: Index, i: Index)
    ensures GuessRoc(Some(m), Wrap(i)) == i / 0x1_0000 <==> InReach(m, i)
    ensures -0x8000 < i - m < 0x8000 ==> InReach(m, i)
  {
    var r, s, q, t := m / 0x1_0000, m % 0x1_0000, i / 0x1_0000, i % 0x1_0000;
    assert m == r * 0x1_0000 + s && i == q * 0x1_0000 + t;
    if s < 0x8000 {
      if -0x8000 < i - m <= 0x8000 {
        assert q == r || q == r - 1;
      }
    } else {
      if -0x8000 <= i - m < 0x8000 {
        assert q == r || q == r + 1;
      }
      assert r + 1 <= 0x1_0000_0000;
    }
  }

  datatype Delivery = Delivery(ok: bool, st: Option<Window>)

  function MaxOf(st: Option<Window>): Option<nat> {
    if st.Some? && st.value.maxIndex >= 0 then Some(st.value.maxIndex) else None
  }

  /** What the receiver does with the packet protected under index `i`. A wrong guess fails to
      authenticate and changes nothing. */
  function Decrypt(replayEnabled: bool, st: Option<Window>, i: Index): Delivery {
    var guess := GuessRoc(MaxOf(st), Wrap(i));
    if guess != i / 0x1_0000 then Delivery(false, st)
    else
      var index := guess * 0x1_0000 + Wrap(i);
      var w := if st.Some? then st.value else NO_WINDOW;
      if replayEnabled then
        var v := CheckAndUpdate(w, index);
        Delivery(v.ok, Some(v.w))
      else
        Delivery(true, Some(if index > w.maxIndex then w.(maxIndex := index) else w))
  }

  // Any sequence of arrivals: lost, repeated and reordered packets.

  ghost function ReceiverAfter(arrivals: seq<Index>): Option<Window> {
    if arrivals == [] then None
    else Decrypt(true, ReceiverAfter(arrivals[..|arrivals| - 1]), arrivals[|arrivals| - 1]).st
  }

  ghost predicate Delivered(arrivals: seq<Index>, k: nat)
    requires k < |arrivals|
  {
    Decrypt(true, ReceiverAfter(arrivals[..k]), arrivals[k]).ok
  }

  ghost function DeliveredSet(arrivals: seq<Index>): set<nat> {
    if arrivals == [] then {}
    else
      var before := DeliveredSet(arrivals[..|arrivals| - 1]);
      if Delivered(arrivals, |arrivals| - 1) then before + {arrivals[|arrivals| - 1]} else before
  }

  /** The packet is near enough to the highest index accepted so far for its guess to be right. */
  ghost predicate Reachable(arrivals: seq<Index>, i: Index) {
    match MaxOf(ReceiverAfter(arrivals))
    case None => i < 0x1_0000
    case Some(m) => m < 0x1_0000_0000_0000 && InReach(m, i)
  }

  ghost predicate Tracks(st: Option<Window>, accepted: set<nat>) {
    && (st.None? <==> accepted == {})
    && (st.Some? ==> Represents(st.value, accepted) && 0 <= st.value.maxIndex < 0x1_0000_0000_0000)
  }

  lemma DecryptTracks(st: Option<Window>, accepted: set<nat>, i: Index)
    requires Tracks(st, accepted)
    ensures var reach := match MaxOf(st) case None => i < 0x1_0000 case Some(m) => InReach(m, i);
            var r := Decrypt(true, st, i);
            && (r.ok <==> reach && Fresh(accepted, i))
            && Tracks(r.st, if r.ok then accepted + {i} else accepted)
  {
    hide Represents, CheckAndUpdate;
    assert i == (i / 0x1_0000) * 0x1_0000 + Wrap(i);
    if st.Some? {
      GuessExact(st.value.maxIndex, i);
    }
    var w := if st.Some? then st.value else NO_WINDOW;
    RepresentsNone();
    WindowRefinesSet(w, accepted, i);
    MaxStays(w, i);
  }

  // With replay protection off.

  /** The state holds the highest of these indices. */
  ghost predicate HoldsHighest(st: Option<Window>, heard: set<nat>) {
    && (st.None? <==> heard == {})
    && (st.Some? ==> 0 <= st.value.maxIndex < 0x1_0000_0000_0000 && st.value.maxIndex in heard
                     && forall i :: i in heard ==> i <= st.value.maxIndex)
  }

  /** Everything within reach is delivered, however old and however often, and raises the maximum if it is higher. */
  lemma DecryptUnguarded(st: Option<Window>, heard: set<nat>, i: Index)
    requires HoldsHighest(st, heard)
    ensures var reach := match MaxOf(st) case None => i < 0x1_0000 case Some(m) => InReach(m, i);
            var r := Decrypt(false, st, i);
            && (r.ok <==> reach)
            && HoldsHighest(r.st, if r.ok then heard + {i} else heard)
            && (st.Some? ==> r.st.Some? && r.st.value.bm == st.value.bm)
  {
    hide CheckAndUpdate, GuessRoc, InReach;
    assert i == (i / 0x1_0000) * 0x1_0000 + Wrap(i);
    if st.Some? {
      GuessExact(st.value.maxIndex, i);
    } else {
      assert GuessRoc(None, Wrap(i)) == 0 by { FirstGuess(Wrap(i)); }
    }
  }

  lemma FirstGuess(s: u16)
    ensures GuessRoc(None, s) == 0
  {
  }

  lemma RepresentsNone()
    ensures Represents(NO_WINDOW, {})
  {
  }

  lemma MaxStays(w: Window, index: nat)
    ensures var m := CheckAndUpdate(w, index).w.maxIndex;
            m == if index > w.maxIndex then index else w.maxIndex
  {
  }

  lemma {:induction false} ReceiverTracks(arrivals: seq<Index>)
    ensures Tracks(ReceiverAfter(arrivals), DeliveredSet(arrivals))
    decreases |arrivals|
  {
    if arrivals != [] {
      hide Represents, Decrypt;
      var before := arrivals[..|arrivals| - 1];
      ReceiverTracks(before);
      DecryptTracks(ReceiverAfter(before), DeliveredSet(before), arrivals[|arrivals| - 1]);
    }
  }

  /** Each arrival is delivered exactly when its guess can be right, it was not delivered before, and
      it is fewer than 128 behind the highest delivered. So nothing is delivered twice. */
  lemma ExactDelivery(arrivals: seq<Index>, k: nat)
    requires k < |arrivals|
    ensures Delivered(arrivals, k) <==>
              Reachable(arrivals[..k], arrivals[k]) && Fresh(DeliveredSet(arrivals[..k]), arrivals[k])
  {
    hide Represents, Decrypt;
    ReceiverTracks(arrivals[..k]);
    DecryptTracks(ReceiverAfter(arrivals[..k]), DeliveredSet(arrivals[..k]), arrivals[k]);
  }

  lemma {:induction false} DeliveredStays(arrivals: seq<Index>, j: nat, k: nat)
    requires j < k <= |arrivals| && Delivered(arrivals, j)
    ensures arrivals[j] in DeliveredSet(arrivals[..k])
    decreases k
  {
    hide Decrypt, ReceiverAfter;
    var upTo := arrivals[..k];
    assert upTo[..k - 1] == arrivals[..k - 1];
    if j == k - 1 {
      assert Delivered(upTo, j);
    } else {
      DeliveredStays(arrivals, j, k - 1);
    }
  }

  lemma AtMostOnce(arrivals: seq<Index>, j: nat, k: nat)
    requires j < k < |arrivals| && arrivals[j] == arrivals[k]
    ensures !(Delivered(arrivals, j) && Delivered(arrivals, k))
  {
    if Delivered(arrivals, j) {
      DeliveredStays(arrivals, j, k);
      ExactDelivery(arrivals, k);
    }
  }

  // The sender's whole run.

  ghost function SentIndices(numbers: seq<u16>): seq<nat> {
    if numbers == [] then []
    else
      var last := |numbers| - 1;
      SentIndices(numbers[..last]) + [SendIndex(SenderMax(numbers[..last]), numbers[last])]
  }

  ghost function SenderMax(numbers: seq<u16>): Option<nat> {
    if numbers == [] then None
    else
      var last := |numbers| - 1;
      var before := SenderMax(numbers[..last]);
      Some(SendMax(before, SendIndex(before, numbers[last])))
  }

  /** In any run the sender's maximum is the highest index it gave. */
  lemma {:induction false} SenderHighest(numbers: seq<u16>)
    requires numbers != []
    ensures |SentIndices(numbers)| == |numbers| && SenderMax(numbers).Some?
    ensures SenderMax(numbers).value in SentIndices(numbers)
    ensures forall i :: 0 <= i < |numbers| ==> SentIndices(numbers)[i] <= SenderMax(numbers).value
    decreases |numbers|
  {
    hide SendIndex;
    var last := |numbers| - 1;
    if last > 0 {
      SenderHighest(numbers[..last]);
    }
  }

  /** Numbers of positions that start in rollover 0 and step forward by less than 0x4000. */
  ghost predicate Sent(positions: seq<Index>, numbers: seq<u16>) {
    && |numbers| == |positions|
    && (forall k :: 0 <= k < |positions| ==> numbers[k] == Wrap(positions[k]))
    && (positions != [] ==> positions[0] < 0x1_0000)
    && (forall k :: 0 < k < |positions| ==> 0 <= positions[k] - positions[k - 1] < 0x4000)
  }

  /** Sending at positions that step forward by less than 0x4000 gives every packet its position as
      index, over any number of rollovers. */
  lemma {:induction false} SenderTracksPositions(positions: seq<Index>, numbers: seq<u16>)
    requires Sent(positions, numbers)
    ensures SentIndices(numbers) == positions
    ensures SenderMax(numbers) == if positions == [] then None else Some(positions[|positions| - 1])
    decreases |positions|
  {
    hide SendIndex, Wrap, SendMax;
    if positions != [] {
      var last := |positions| - 1;
      var before := numbers[..last];
      SenderTracksPositions(positions[..last], before);
      assert positions == positions[..last] + [positions[last]];
      var step := if last == 0 then 0 else positions[last] - positions[last - 1];
      SenderStep(if last == 0 then positions[0] else positions[last - 1], step);
      assert SendIndex(SenderMax(before), numbers[last]) == positions[last];
      assert SendMax(SenderMax(before), positions[last]) == positions[last] by {
        MaxStep(SenderMax(before), positions[last]);
      }
      assert SentIndices(numbers) == SentIndices(before) + [positions[last]];
    }
  }

  lemma MaxStep(max: Option<nat>, index: nat)
    requires max.Some? ==> max.value <= index
    ensures SendMax(max, index) == index
  {
  }

  lemma SenderStep(m: Index, d: nat)
    requires d < 0x4000 && m + d < 0x1_0000_0000_0000
    ensures SendIndex(Some(m), Wrap(m + d)) == m + d
    ensures m < 0x1_0000 ==> SendIndex(None, Wrap(m)) == m
  {
    SenderExact(m, d);
  }

  /** The packets that arrive, as the sender indexed them. */
  ghost function Arriving(numbers: seq<u16>, which: seq<nat>): seq<nat>
    requires forall a :: 0 <= a < |which| ==> which[a] < |SentIndices(numbers)|
  {
    seq(|which|, a requires 0 <= a < |which| => SentIndices(numbers)[which[a]])
  }

  /** Sender and receiver together. As long as every arrival is within 2^15 of the highest delivered
      (the first one in rollover 0), an arrival is delivered exactly when it is the first of its packet
      and fewer than 128 behind the maximum, whatever is lost, repeated or reordered. */
  lemma EndToEnd(positions: seq<Index>, numbers: seq<u16>, which: seq<nat>, k: nat)
    requires Sent(positions, numbers)
    requires k < |which| && forall a :: 0 <= a < |which| ==> which[a] < |positions|
    requires var arrivals: seq<Index> := seq(|which|, a requires 0 <= a < |which| => positions[which[a]]);
             match MaxOf(ReceiverAfter(arrivals[..k]))
             case None => arrivals[k] < 0x1_0000
             case Some(m) => -0x8000 < arrivals[k] - m < 0x8000
    ensures |SentIndices(numbers)| == |positions|
    ensures var arrivals: seq<Index> := seq(|which|, a requires 0 <= a < |which| => positions[which[a]]);
            && Arriving(numbers, which) == arrivals
            && (Delivered(arrivals, k) <==> Fresh(DeliveredSet(arrivals[..k]), arrivals[k]))
  {
    hide Decrypt, Represents, SendIndex, SentIndices, Fresh;
    SenderTracksPositions(positions, numbers);
    var arrivals: seq<Index> := seq(|which|, a requires 0 <= a < |which| => positions[which[a]]);
    ReceiverTracks(arrivals[..k]);
    var st := ReceiverAfter(arrivals[..k]);
    if MaxOf(st).Some? {
      GuessExact(MaxOf(st).value, arrivals[k]);
    }
    ExactDelivery(arrivals, k);
  }

  // ------------------------------------------------------------------
  // The objects
  // ------------------------------------------------------------------

  /** The receive state of one SSRC; the words of `replay` change in place. */
  class ReplayState {
    var maxIndex: int
    const replay: array<u32>

    ghost predicate Valid()
      reads this
    {
      replay.Length == 4
    }

    ghost function Abs(): Window
      requires Valid()
      reads this, replay
    {
      Window(maxIndex, replay[..])
    }

    constructor ()
      ensures Valid() && fresh(replay) && Abs() == NO_WINDOW
    {
      maxIndex := -1;
      replay := new u32[4](_ => 0);
      new;
      assert replay[..] == [0, 0, 0, 0];
    }

    method ShiftLeft(n: nat)
      requires Valid()
      modifies replay
      ensures replay[..] == Shifted(old(replay[..]), n)
    {
      hide ShiftedWord;
      if n >= 128 {
        replay[0], replay[1], replay[2], replay[3] := 0, 0, 0, 0;
        assert replay[..] == [0, 0, 0, 0];
        return;
      }
      ghost var bm: Bitmap := replay[..];
      var i := 3;
      while i >= 0
        invariant -1 <= i <= 3
        invariant forall j :: 0 <= j <= i ==> replay[j] == bm[j]
        invariant forall j :: i < j < 4 ==> replay[j] == ShiftedWord(bm, n, j)
      {
        var v := WordFor(n, i);
        ShiftedWordLocal(replay[..], bm, n, i);
        replay[i] := v;
        i := i - 1;
      }
      ghost var done := Shifted(bm, n);
      assert |replay[..]| == 4;
      forall j | 0 <= j < 4 ensures replay[..][j] == done[j] {
        assert replay[j] == ShiftedWord(bm, n, j);
      }
      assert replay[..] == done;
    }

    /** The loop body: word `i` of the result, from words not yet overwritten. */
    method WordFor(n: nat, i: nat) returns (v: u32)
      requires Valid() && n < 128 && i < 4
      ensures v == ShiftedWord(replay[..], n, i)
    {
      hide Bit, Or, Low, Shl, Shr;
      ghost var bm: Bitmap := replay[..];
      var wordShift, bitShift := n / 32, n % 32;
      var src := i - wordShift;
      v := if src >= 0 then replay[src] else 0;
      if bitShift != 0 {
        MergeFits(v, bitShift, WordAt(bm, src - 1));
        ShrZero(32 - bitShift);
        v := Or(Low(Shl(v, bitShift), 32), if src - 1 >= 0 then Shr(replay[src - 1], 32 - bitShift) else 0);
      }
    }

    /** `_replayCheckAndUpdate`: called only after the packet authenticated. */
    method CheckIndex(index: nat) returns (ok: bool)
      requires Valid()
      modifies this`maxIndex, replay
      ensures Verdict(ok, Abs()) == CheckAndUpdate(old(Abs()), index)
    {
      hide Shifted, ShiftedWord, Bit, Or, Shl;
      ghost var bm: Bitmap := replay[..];
      if maxIndex < 0 {
        maxIndex := index;
        replay[0], replay[1], replay[2], replay[3] := 1, 0, 0, 0;
        assert replay[..] == [1, 0, 0, 0];
        return true;
      }
      if index > maxIndex {
        ShiftLeft(index - maxIndex);
        ghost var shifted: Bitmap := replay[..];
        SetBitFits(replay[0], 0);
        replay[0] := Or(replay[0], Shl(1, 0));
        assert replay[..] == SetBit(shifted, 0);
        maxIndex := index;
        return true;
      }
      var d := maxIndex - index;
      if d >= REPLAY_WINDOW {
        return false;
      }
      if Bit(replay[d / 32], d % 32) {
        return false;
      }
      SetBitFits(replay[d / 32], d % 32);
      replay[d / 32] := Or(replay[d / 32], Shl(1, d % 32));
      assert replay[..] == SetBit(bm, d);
      return true;
    }
  }

  /** The per-SSRC replay states of a session. */
  class ReplayTable {
    var states: map<u32, ReplayState>
    ghost var Repr: set<object>

    ghost predicate Valid()
      reads this, Repr
    {
      && this in Repr
      && (forall s :: s in states ==>
            states[s] in Repr && states[s].replay in Repr && states[s].Valid())
      && (forall s, t :: s in states && t in states && s != t ==>
            states[s] != states[t] && states[s].replay != states[t].replay)
    }

    /** The window of every SSRC heard so far. */
    ghost function Windows(): map<u32, Window>
      requires Valid()
      reads this, Repr
    {
      map s | s in states :: states[s].Abs()
    }

    constructor ()
      ensures Valid() && fresh(Repr) && Windows() == map[]
    {
      states, Repr := map[], {this};
    }

    /** `_srtcpReplayOk`: each SSRC has a window of its own, made on its first packet;
        with replay protection off every index passes. */
    method CheckIndex(replayEnabled: bool, ssrc: u32, index: nat) returns (ok: bool)
      requires Valid()
      modifies Repr
      ensures Valid() && fresh(Repr - old(Repr))
      ensures if replayEnabled then
                var w := if ssrc in old(Windows()) then old(Windows())[ssrc] else NO_WINDOW;
                var v := CheckAndUpdate(w, index);
                ok == v.ok && Windows() == old(Windows())[ssrc := v.w]
              else ok && Windows() == old(Windows())
    {
      hide CheckAndUpdate;
      if !replayEnabled {
        return true;
      }
      Open(ssrc);
      ok := CheckExisting(ssrc, index);
    }

    method CheckExisting(ssrc: u32, index: nat) returns (ok: bool)
      requires Valid() && ssrc in states
      modifies Repr
      ensures Valid() && Repr == old(Repr)
      ensures var v := CheckAndUpdate(old(Windows())[ssrc], index);
              ok == v.ok && Windows() == old(Windows())[ssrc := v.w]
    {
      hide CheckAndUpdate;
      var st := states[ssrc];
      ok := st.CheckIndex(index);
      assert forall s :: s in states && s != ssrc ==> states[s].Abs() == old(states[s].Abs());
    }

    method Open(ssrc: u32)
      requires Valid()
      modifies this
      ensures Valid() && fresh(Repr - old(Repr)) && ssrc in states
      ensures Windows() == if ssrc in old(Windows()) then old(Windows()) else old(Windows())[ssrc := NO_WINDOW]
    {
      if ssrc !in states {
        var st := new ReplayState();
        states := states[ssrc := st];
        Repr := Repr + {st, st.replay};
      }
      assert forall s :: s in old(states) ==> states[s] == old(states[s]) && states[s].Abs() == old(states[s].Abs());
    }

    /** `decryptRtp` for a packet that the sender protected under index `i`: the state is looked up to
        guess the rollover, and made or updated only after the packet authenticated. */
    method Receive(replayEnabled: bool, ssrc: u32, i: Index) returns (ok: bool)
      requires Valid()
      modifies Repr
      ensures Valid() && fresh(Repr - old(Repr))
      ensures var st := if ssrc in old(Windows()) then Some(old(Windows())[ssrc]) else None;
              var r := Decrypt(replayEnabled, st, i);
              && ok == r.ok
              && Windows() == match r.st case None => old(Windows()) case Some(w) => old(Windows())[ssrc := w]
    {
      hide CheckAndUpdate, GuessRoc;
      var max: Option<nat> := None;
      if ssrc in states && states[ssrc].maxIndex >= 0 {
        max := Some(states[ssrc].maxIndex);
      }
      var guess := GuessRoc(max, Wrap(i));
      var index := guess * 0x1_0000 + Wrap(i);
      if guess != i / 0x1_0000 {
        return false;
      }
      if replayEnabled {
        ok := CheckIndex(true, ssrc, index);
      } else {
        Open(ssrc);
        RaiseMax(ssrc, index);
        ok := true;
      }
    }

    method RaiseMax(ssrc: u32, index: nat)
      requires Valid() && ssrc in states
      modifies Repr
      ensures Valid() && Repr == old(Repr)
      ensures var w := old(Windows())[ssrc];
              Windows() == old(Windows())[ssrc := if index > w.maxIndex then w.(maxIndex := index) else w]
    {
      var st := states[ssrc];
      if index > st.maxIndex {
        st.maxIndex := index;
      }
      assert forall s :: s in states && s != ssrc ==> states[s].Abs() == old(states[s].Abs());
    }
  }

  /** The send states of a session, one highest index per SSRC. */
  class SrtpSender {
    var sendState: map<u32, nat>

    function MaxFor(ssrc: u32): Option<nat>
      reads this
    {
      if ssrc in sendState then Some(sendState[ssrc]) else None
    }

    constructor ()
      ensures sendState == map[]
    {
      sendState := map[];
    }

    /** The index `encryptRtp` protects number `s` under. */
    method Protect(ssrc: u32, s: u16) returns (index: nat)
      modifies this
      ensures index == SendIndex(old(MaxFor(ssrc)), s)
      ensures sendState == old(sendState)[ssrc := SendMax(old(MaxFor(ssrc)), index)]
    {
      if ssrc in sendState {
        var max := sendState[ssrc];
        var roc, lastSeq := max / 0x1_0000, max % 0x1_0000;
        if s < 0x8000 && lastSeq > 0xC000 {
          roc := (roc + 1) % 0x1_0000_0000;
        }
        index := roc * 0x1_0000 + s;
        if index > max {
          sendState := sendState[ssrc := index];
        }
      } else {
        index := s;
        sendState := sendState[ssrc := index];
      }
    }
  }
}
