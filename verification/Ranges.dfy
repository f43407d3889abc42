/**
 Sets of integers as flat lists of half-open ranges: [a, b, c, d] stands for a..b and c..d, ascending and
 never touching. `AddOne` and `Contains` stand for the operations of the flat-ranges package; `Clip` is
 the in-place trimming of `_evictOld` in src/retransmit.js.
 */
module Ranges {

  ghost predicate Sorted(r: seq<int>) {
    |r| % 2 == 0 && forall i, j :: 0 <= i < j < |r| ==> r[i] < r[j]
  }

  predicate Contains(r: seq<int>, x: int) {
    |r| >= 2 && (r[0] <= x < r[1] || Contains(r[2..], x))
  }

  function AddOne(r: seq<int>, x: int): seq<int> {
    if |r| < 2 || x + 1 < r[0] then [x, x + 1] + r
    else if x + 1 == r[0] then [x] + r[1..]
    else if x < r[1] then r
    else if x == r[1] then
      if |r| > 2 && r[2] == x + 1 then [r[0]] + r[3..] else [r[0], x + 1] + r[2..]
    else r[..2] + AddOne(r[2..], x)
  }

  lemma {:induction false} BelowFirst(r: seq<int>, x: int)
    requires Sorted(r) && (|r| > 0 ==> x < r[0])
    ensures !Contains(r, x)
    decreases |r|
  {
    if |r| >= 2 {
      BelowFirst(r[2..], x);
    }
  }

  lemma Prepended(lo: int, hi: int, r: seq<int>)
    requires Sorted(r) && lo < hi && (r != [] ==> hi < r[0])
    ensures Sorted([lo, hi] + r)
  {
  }

  lemma {:induction false} AddOneSorted(r: seq<int>, x: int)
    requires Sorted(r)
    ensures Sorted(AddOne(r, x)) && |AddOne(r, x)| > 0
    ensures AddOne(r, x)[0] == if |r| > 0 && r[0] <= x then r[0] else x
    decreases |r|
  {
    var a := AddOne(r, x);
    if |r| < 2 || x + 1 < r[0] {
      Prepended(x, x + 1, r);
    } else if x + 1 == r[0] {
      assert a == [x, r[1]] + r[2..];
      Prepended(x, r[1], r[2..]);
    } else if x == r[1] {
      if |r| > 2 && r[2] == x + 1 {
        assert a == [r[0], r[3]] + r[4..];
        Prepended(r[0], r[3], r[4..]);
      } else {
        Prepended(r[0], x + 1, r[2..]);
      }
    } else if x > r[1] {
      AddOneSorted(r[2..], x);
      assert a == [r[0], r[1]] + AddOne(r[2..], x);
      Prepended(r[0], r[1], AddOne(r[2..], x));
    }
  }

  lemma {:induction false} AddOneContains(r: seq<int>, x: int, y: int)
    requires Sorted(r)
    ensures Contains(AddOne(r, x), y) <==> y == x || Contains(r, y)
    decreases |r|
  {
    var a := AddOne(r, x);
    if |r| < 2 || x + 1 < r[0] {
      assert a[2..] == r;
    } else if x + 1 == r[0] {
      assert a[2..] == r[2..];
    } else if x < r[1] {
    } else if x == r[1] {
      if |r| > 2 && r[2] == x + 1 {
        assert a[2..] == r[2..][2..];
      } else {
        assert a[2..] == r[2..];
      }
    } else {
      AddOneContains(r[2..], x, y);
      assert a[2..] == AddOne(r[2..], x);
    }
  }

  /** Drops the ranges that end at or before the cutoff, then cuts the first one left. */
  function Clip(r: seq<int>, cutoff: int): seq<int> {
    if |r| < 2 then r
    else if r[1] <= cutoff then Clip(r[2..], cutoff)
    else if r[0] < cutoff then [cutoff] + r[1..]
    else r
  }

  /** Clipping keeps exactly the members at or above the cutoff. */
  lemma {:induction false} ClipExact(r: seq<int>, cutoff: int, y: int)
    requires Sorted(r)
    ensures Sorted(Clip(r, cutoff))
    ensures Contains(Clip(r, cutoff), y) <==> Contains(r, y) && y >= cutoff
    decreases |r|
  {
    if |r| >= 2 {
      if r[1] <= cutoff {
        ClipExact(r[2..], cutoff, y);
      } else {
        if y < cutoff {
          BelowFirst(r[2..], y);
        }
        if r[0] < cutoff {
          assert ([cutoff] + r[1..])[2..] == r[2..];
        } else if y < r[0] {
          BelowFirst(r, y);
        }
      }
    }
  }

  /** `_evictOld`'s loop: `k` runs over the range ends, then the list is cut in place. */
  method ClipInPlace(r0: seq<int>, cutoff: int) returns (r: seq<int>)
    requires Sorted(r0)
    ensures r == Clip(r0, cutoff)
  {
    r := r0;
    if |r| > 0 && r[0] < cutoff {
      var k := 0;
      while k < |r| && r[k + 1] <= cutoff
        invariant 0 <= k <= |r| && k % 2 == 0
        invariant Clip(r[k..], cutoff) == Clip(r0, cutoff)
      {
        assert r[k..][2..] == r[k + 2..];
        k := k + 2;
      }
      if k > 0 {
        r := r[k..];
      }
      if |r| > 0 && r[0] < cutoff {
        r := r[0 := cutoff];
      }
    }
  }
}
