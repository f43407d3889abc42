/** The reordering histogram of src/retransmit.js: bucket counts over a ring of the latest samples. */
module HistogramModel {

  type Positive = n: int | n > 0 witness 1

  function Clamp(value: int, numBuckets: Positive): nat {
    if value < 0 then 0 else if value > numBuckets - 1 then numBuckets - 1 else value
  }

  function Count(values: seq<nat>, b: nat): nat {
    multiset(values)[b]
  }

  /** The latest `n` of the samples. */
  function Latest(samples: seq<nat>, n: nat): seq<nat> {
    if |samples| <= n then samples else samples[|samples| - n..]
  }

  /** How many samples lie in the first `b` buckets. */
  function Below(buckets: seq<nat>, b: nat): nat
    requires b <= |buckets|
  {
    if b == 0 then 0 else Below(buckets, b - 1) + buckets[b - 1]
  }

  lemma CountReplaced(values: seq<nat>, i: nat, v: nat, b: nat)
    requires i < |values|
    ensures Count(values, values[i]) > 0
    ensures Count(values[i := v], b) ==
              Count(values, b) - (if b == values[i] then 1 else 0) + (if b == v then 1 else 0)
  {
    assert values == values[..i] + [values[i]] + values[i + 1..];
    assert values[i := v] == values[..i] + [v] + values[i + 1..];
  }

  lemma CountAppended(values: seq<nat>, v: nat, b: nat)
    ensures Count(values + [v], b) == Count(values, b) + if b == v then 1 else 0
  {
  }

  /** Every value has a bucket, and the buckets count the values. */
  ghost predicate Counts(buckets: seq<nat>, values: seq<nat>) {
    && (forall i :: 0 <= i < |values| ==> values[i] < |buckets|)
    && forall b :: 0 <= b < |buckets| ==> buckets[b] == Count(values, b)
  }

  lemma CountsReplaced(buckets: seq<nat>, values: seq<nat>, i: nat, v: nat)
    requires Counts(buckets, values) && i < |values| && v < |buckets|
    ensures values[i] < |buckets| && buckets[values[i]] > 0
    ensures var less := buckets[values[i] := buckets[values[i]] - 1];
            Counts(less[v := less[v] + 1], values[i := v])
  {
    hide Count;
    CountReplaced(values, i, v, 0);
    var less := buckets[values[i] := buckets[values[i]] - 1];
    var more := less[v := less[v] + 1];
    forall b | 0 <= b < |buckets| ensures more[b] == Count(values[i := v], b) {
      CountReplaced(values, i, v, b);
    }
  }

  lemma CountsAppended(buckets: seq<nat>, values: seq<nat>, v: nat)
    requires Counts(buckets, values) && v < |buckets|
    ensures Counts(buckets[v := buckets[v] + 1], values + [v])
  {
    hide Count;
    var more := buckets[v := buckets[v] + 1];
    forall b | 0 <= b < |buckets| ensures more[b] == Count(values + [v], b) {
      CountAppended(values, v, b);
    }
  }

  /** How many values are below `b`. */
  function CountLess(values: seq<nat>, b: nat): nat {
    if values == [] then 0 else CountLess(values[1..], b) + if values[0] < b then 1 else 0
  }

  lemma {:induction false} CountLessStep(values: seq<nat>, b: nat)
    ensures CountLess(values, b + 1) == CountLess(values, b) + Count(values, b)
  {
    if values != [] {
      CountLessStep(values[1..], b);
      assert values == [values[0]] + values[1..];
    }
  }

  lemma {:induction false} CountLessAll(values: seq<nat>, b: nat)
    ensures (forall i :: 0 <= i < |values| ==> values[i] < b) ==> CountLess(values, b) == |values|
    ensures b == 0 ==> CountLess(values, b) == 0
  {
    if values != [] {
      CountLessAll(values[1..], b);
    }
  }

  lemma {:induction false} BelowCounts(buckets: seq<nat>, values: seq<nat>, b: nat)
    requires Counts(buckets, values) && b <= |buckets|
    ensures Below(buckets, b) == CountLess(values, b)
    decreases b
  {
    CountLessAll(values, b);
    if b > 0 {
      BelowCounts(buckets, values, b - 1);
      CountLessStep(values, b - 1);
    }
  }

  /** The fraction, held to 0..1. */
  function Fraction(probability: real): real {
    if probability < 0.0 then 0.0 else if probability > 1.0 then 1.0 else probability
  }

  /** `n` times `p`, added up one by one. */
  function Times(p: real, n: nat): real {
    if n == 0 then 0.0 else p + Times(p, n - 1)
  }

  /** The count a fraction of `n` samples amounts to. */
  function Needed(probability: real, n: nat): real {
    Times(Fraction(probability), n)
  }

  lemma {:induction false} TimesBound(p: real, n: nat)
    requires 0.0 <= p <= 1.0
    ensures 0.0 <= Times(p, n) <= n as real
  {
    if n > 0 {
      TimesBound(p, n - 1);
    }
  }

  /** At least the fraction `p` of the values lies below `b`. */
  predicate Reached(values: seq<nat>, p: real, b: nat) {
    CountLess(values, b) as real >= Needed(p, |values|)
  }

  /** The first boundary from `b` on with at least the fraction `p` of the values below it, or the last one. */
  function QuantileFrom(values: seq<nat>, p: real, numBuckets: nat, b: nat): nat
    decreases numBuckets - b
  {
    if b >= numBuckets || Reached(values, p, b) then b else QuantileFrom(values, p, numBuckets, b + 1)
  }

  function Quantile(values: seq<nat>, p: real, numBuckets: nat): nat {
    if values == [] then 0 else QuantileFrom(values, p, numBuckets, 0)
  }

  lemma {:induction false} QuantileFromIs(values: seq<nat>, p: real, numBuckets: nat, b: nat)
    requires b <= numBuckets && Reached(values, p, numBuckets)
    ensures var q := QuantileFrom(values, p, numBuckets, b);
            b <= q <= numBuckets && Reached(values, p, q) && forall c :: b <= c < q ==> !Reached(values, p, c)
    decreases numBuckets - b
  {
    hide Reached;
    if b < numBuckets && !Reached(values, p, b) {
      QuantileFromIs(values, p, numBuckets, b + 1);
    }
  }

  /** The quantile is the smallest boundary below which at least the fraction of the samples lies. */
  lemma QuantileExact(values: seq<nat>, p: real, numBuckets: nat)
    requires values != [] && forall i :: 0 <= i < |values| ==> values[i] < numBuckets
    ensures var q := Quantile(values, p, numBuckets);
            q <= numBuckets && Reached(values, p, q) && forall c :: 0 <= c < q ==> !Reached(values, p, c)
  {
    hide QuantileFrom, Times;
    CountLessAll(values, numBuckets);
    TimesBound(Fraction(p), |values|);
    QuantileFromIs(values, p, numBuckets, 0);
  }

  lemma {:induction false} CountLessConcat(a: seq<nat>, b: seq<nat>, c: nat)
    ensures CountLess(a + b, c) == CountLess(a, c) + CountLess(b, c)
    decreases |a|
  {
    if a == [] {
      assert a + b == b;
    } else {
      assert (a + b)[1..] == a[1..] + b;
      CountLessConcat(a[1..], b, c);
    }
  }

  /** Where the ring starts does not matter. */
  lemma {:induction false} QuantileUnrolled(values: seq<nat>, index: nat, p: real, numBuckets: nat, b: nat)
    requires index <= |values|
    ensures QuantileFrom(Unrolled(values, index), p, numBuckets, b) == QuantileFrom(values, p, numBuckets, b)
    decreases numBuckets - b
  {
    hide Needed;
    assert values == values[..index] + values[index..];
    CountLessConcat(values[..index], values[index..], b);
    CountLessConcat(values[index..], values[..index], b);
    if b < numBuckets {
      QuantileUnrolled(values, index, p, numBuckets, b + 1);
    }
  }

  /** Reading the ring from the oldest slot on. */
  function Unrolled(values: seq<nat>, index: nat): seq<nat>
    requires index <= |values|
  {
    values[index..] + values[..index]
  }

  /** The ring holds the latest samples, the oldest at `index` once it is full. */
  ghost predicate Rings(values: seq<nat>, index: nat, samples: seq<nat>, max: Positive) {
    if |samples| < max then values == samples && index == |samples|
    else |values| == max && index < max && Unrolled(values, index) == Latest(samples, max)
  }

  /** Overwriting the oldest slot. */
  lemma RingStep(values: seq<nat>, index: nat, v: nat)
    requires index < |values|
    ensures var next := (index + 1) % |values|;
            next < |values| && Unrolled(values[index := v], next) == Unrolled(values, index)[1..] + [v]
  {
    var w := values[index := v];
    if index + 1 == |values| {
      assert (index + 1) % |values| == 0;
      assert Unrolled(w, 0) == w;
    } else {
      assert (index + 1) % |values| == index + 1;
    }
  }

  /** A full ring takes a sample over its oldest. */
  lemma RingTurns(values: seq<nat>, index: nat, samples: seq<nat>, max: Positive, v: nat)
    requires Rings(values, index, samples, max) && index < |values|
    ensures Rings(values[index := v], (index + 1) % max, samples + [v], max)
  {
    RingStep(values, index, v);
    hide Unrolled;
    assert Latest(samples + [v], max) == Latest(samples, max)[1..] + [v];
  }

  /** A ring still filling takes it at the end. */
  lemma RingGrows(values: seq<nat>, index: nat, samples: seq<nat>, max: Positive, v: nat)
    requires Rings(values, index, samples, max) && index >= |values|
    ensures Rings(values + [v], (index + 1) % max, samples + [v], max)
  {
    if |samples| + 1 == max {
      assert (index + 1) % max == 0;
    } else {
      assert (index + 1) % max == index + 1;
    }
  }

  /** The quantile of the ring is that of the latest samples. */
  lemma RingQuantile(values: seq<nat>, index: nat, samples: seq<nat>, max: Positive, p: real, numBuckets: nat)
    requires Rings(values, index, samples, max)
    ensures Quantile(values, p, numBuckets) == Quantile(Latest(samples, max), p, numBuckets)
  {
    if |samples| >= max {
      QuantileUnrolled(values, index, p, numBuckets, 0);
    }
  }

  class Histogram {
    const buckets: array<nat>
    var values: seq<nat>
    const maxNumValues: Positive
    var index: nat
    /** Every clamped sample since the last reset. */
    ghost var samples: seq<nat>

    /** The ring holds the latest samples and each bucket counts them. */
    ghost predicate Valid()
      reads this, buckets
    {
      && buckets.Length > 0
      && Rings(values, index, samples, maxNumValues)
      && Counts(buckets[..], values)
    }

    constructor (numBuckets: Positive, maxNumValues: Positive)
      ensures Valid() && samples == [] && fresh(buckets)
      ensures buckets.Length == numBuckets && this.maxNumValues == maxNumValues
    {
      buckets := new nat[numBuckets](_ => 0);
      values, index, samples := [], 0, [];
      this.maxNumValues := maxNumValues;
    }

    /** Adds a sample; the oldest leaves when the ring is full. */
    method AddSample(value: int)
      requires Valid()
      modifies this, buckets
      ensures Valid() && samples == old(samples) + [Clamp(value, buckets.Length)]
      ensures samples[|samples| - 1] ==
                if value < 0 then 0 else if value < buckets.Length then value else buckets.Length - 1
    {
      hide Counts, Rings;
      var v := Clamp(value, buckets.Length);
      if index < |values| {
        RingTurns(values, index, samples, maxNumValues, v);
        CountsReplaced(buckets[..], values, index, v);
        Uncount(values[index]);
        values := values[index := v];
      } else {
        RingGrows(values, index, samples, maxNumValues, v);
        CountsAppended(buckets[..], values, v);
        values := values + [v];
      }
      ghost var bs := buckets[..];
      buckets[v] := buckets[v] + 1;
      assert buckets[..] == bs[v := bs[v] + 1];
      index := (index + 1) % maxNumValues;
      samples := samples + [v];
    }

    method Uncount(v: nat)
      requires v < buckets.Length && buckets[v] > 0
      modifies buckets
      ensures buckets[..] == old(buckets[..])[v := old(buckets[v]) - 1]
    {
      buckets[v] := buckets[v] - 1;
    }

    /** The smallest bucket boundary below which at least the fraction `probability` of the latest samples lies;
        0 without samples. The source adds fractions of the total, this adds the counts themselves. */
    method InverseCdf(probability: real) returns (bucket: nat)
      requires Valid()
      ensures bucket == Quantile(Latest(samples, maxNumValues), probability, buckets.Length)
      ensures bucket <= buckets.Length
    {
      hide Needed, Counts, Rings, Unrolled;
      RingQuantile(values, index, samples, maxNumValues, probability, buckets.Length);
      bucket := 0;
      if |values| == 0 {
        return;
      }
      var accumulated := 0;
      BelowCounts(buckets[..], values, 0);
      while accumulated as real < Needed(probability, |values|) && bucket < buckets.Length
        invariant bucket <= buckets.Length && accumulated == Below(buckets[..], bucket)
        invariant QuantileFrom(values, probability, buckets.Length, bucket)
               == QuantileFrom(values, probability, buckets.Length, 0)
      {
        BelowCounts(buckets[..], values, bucket);
        accumulated := accumulated + buckets[bucket];
        bucket := bucket + 1;
      }
      BelowCounts(buckets[..], values, bucket);
    }

    method Reset()
      requires Valid()
      modifies this, buckets
      ensures Valid() && samples == []
    {
      for i := 0 to buckets.Length
        invariant forall b :: 0 <= b < i ==> buckets[b] == 0
      {
        buckets[i] := 0;
      }
      values, index, samples := [], 0, [];
    }
  }
}
