/** Binary arithmetic on natural numbers: the operators `&`, `|`, `^`, `<<`, `>>>` of the source,
    each tied to the single bits of its operands. */
module Bits {

  function Pow2(n: nat): (p: nat)
    ensures p > 0
  {
    if n == 0 then 1 else 2 * Pow2(n - 1)
  }

  lemma {:induction false} Pow2Sum(a: nat, b: nat)
    ensures Pow2(a + b) == Pow2(a) * Pow2(b)
    decreases a
  {
    if a > 0 {
      Pow2Sum(a - 1, b);
      assert Pow2(a + b) == 2 * Pow2(a - 1 + b);
      assert 2 * (Pow2(a - 1) * Pow2(b)) == (2 * Pow2(a - 1)) * Pow2(b);
    }
  }

  lemma Pow2Twice(n: nat)
    ensures Pow2(n + 1) == 2 * Pow2(n)
  {
  }

  /** The word sizes in use. */
  lemma Pow2Words()
    ensures Pow2(8) == 0x100 && Pow2(16) == 0x1_0000 && Pow2(32) == 0x1_0000_0000
  {
    assert Pow2(4) == 16;
    hide Pow2;
    assert Pow2(8) == 16 * 16 by { Pow2Sum(4, 4); }
    assert Pow2(16) == 0x100 * 0x100 by { Pow2Sum(8, 8); }
    assert Pow2(32) == 0x1_0000 * 0x1_0000 by { Pow2Sum(16, 16); }
  }

  lemma {:induction false} Pow2Monotone(a: nat, b: nat)
    requires a <= b
    ensures Pow2(a) <= Pow2(b)
    decreases b
  {
    if a < b {
      Pow2Monotone(a, b - 1);
    }
  }

  /** Bit `i` of `w`, bit 0 the least significant. */
  predicate Bit(w: nat, i: nat)
    decreases i
  {
    if i == 0 then w % 2 == 1 else Bit(w / 2, i - 1)
  }

  function Or(a: nat, b: nat): nat {
    if a == 0 && b == 0 then 0
    else 2 * Or(a / 2, b / 2) + if a % 2 == 1 || b % 2 == 1 then 1 else 0
  }

  function Xor(a: nat, b: nat): nat {
    if a == 0 && b == 0 then 0
    else 2 * Xor(a / 2, b / 2) + if a % 2 != b % 2 then 1 else 0
  }

  function Shl(w: nat, s: nat): nat
    decreases s
  {
    if s == 0 then w else Shl(2 * w, s - 1)
  }

  function Shr(w: nat, s: nat): nat
    decreases s
  {
    if s == 0 then w else Shr(w / 2, s - 1)
  }

  /** The `n` low bits: truncation to an `n`-bit word, or `&` with a mask of `n` ones. */
  function Low(w: nat, n: nat): nat
    decreases n
  {
    if n == 0 then 0 else 2 * Low(w / 2, n - 1) + w % 2
  }

  lemma {:induction false} BitOr(a: nat, b: nat, i: nat)
    ensures Bit(Or(a, b), i) == (Bit(a, i) || Bit(b, i))
    decreases i
  {
    OrStep(a, b);
    if i > 0 {
      BitOr(a / 2, b / 2, i - 1);
    }
  }

  lemma OrStep(a: nat, b: nat)
    ensures Or(a, b) / 2 == Or(a / 2, b / 2)
    ensures Or(a, b) % 2 == 1 <==> a % 2 == 1 || b % 2 == 1
  {
  }

  lemma XorStep(a: nat, b: nat)
    ensures Xor(a, b) / 2 == Xor(a / 2, b / 2)
    ensures Xor(a, b) % 2 == 1 <==> a % 2 != b % 2
  {
  }

  lemma {:induction false} BitXor(a: nat, b: nat, i: nat)
    ensures Bit(Xor(a, b), i) == (Bit(a, i) != Bit(b, i))
    decreases i
  {
    XorStep(a, b);
    if i > 0 {
      BitXor(a / 2, b / 2, i - 1);
    }
  }

  lemma {:induction false} BitShl(w: nat, s: nat, i: nat)
    ensures Bit(Shl(w, s), i) == (s <= i && Bit(w, i - s))
    decreases s
  {
    if s > 0 {
      BitShl(2 * w, s - 1, i);
      if i >= s {
        assert 2 * w / 2 == w;
      }
    }
  }

  lemma {:induction false} BitShr(w: nat, s: nat, i: nat)
    ensures Bit(Shr(w, s), i) == Bit(w, i + s)
    decreases s
  {
    if s > 0 {
      BitShr(w / 2, s - 1, i);
    }
  }

  lemma {:induction false} BitLow(w: nat, n: nat, i: nat)
    ensures Bit(Low(w, n), i) == (i < n && Bit(w, i))
    decreases n
  {
    if n == 0 {
      BitZero(i);
    } else if i > 0 {
      BitLow(w / 2, n - 1, i - 1);
    }
  }

  lemma {:induction false} BitZero(i: nat)
    ensures !Bit(0, i)
    decreases i
  {
    if i > 0 {
      BitZero(i - 1);
    }
  }

  lemma {:induction false} BitOne(i: nat)
    ensures Bit(1, i) == (i == 0)
  {
    if i > 0 {
      BitZero(i - 1);
    }
  }

  /** A number below 2^n has no bit from `n` on. */
  lemma {:induction false} BitAbove(w: nat, n: nat, i: nat)
    requires w < Pow2(n) && n <= i
    ensures !Bit(w, i)
    decreases n
  {
    if n == 0 {
      BitZero(i);
    } else {
      BitAbove(w / 2, n - 1, i - 1);
    }
  }

  lemma {:induction false} LowBound(w: nat, n: nat)
    ensures Low(w, n) < Pow2(n)
    ensures w < Pow2(n) ==> Low(w, n) == w
    decreases n
  {
    if n > 0 {
      LowBound(w / 2, n - 1);
    }
  }

  lemma {:induction false} ShrBound(w: nat, s: nat, n: nat)
    requires w < Pow2(s + n)
    ensures Shr(w, s) < Pow2(n)
    decreases s
  {
    if s > 0 {
      ShrBound(w / 2, s - 1, n);
    }
  }

  lemma {:induction false} OrBound(a: nat, b: nat, n: nat)
    requires a < Pow2(n) && b < Pow2(n)
    ensures Or(a, b) < Pow2(n)
    decreases n
  {
    if n > 0 {
      OrBound(a / 2, b / 2, n - 1);
    }
  }

  lemma {:induction false} XorBound(a: nat, b: nat, n: nat)
    requires a < Pow2(n) && b < Pow2(n)
    ensures Xor(a, b) < Pow2(n)
    decreases n
  {
    if n > 0 {
      XorBound(a / 2, b / 2, n - 1);
    }
  }

  lemma {:induction false} ShlBound(w: nat, s: nat, n: nat)
    requires w < Pow2(n)
    ensures Shl(w, s) < Pow2(s + n)
    decreases s
  {
    if s > 0 {
      ShlBound(2 * w, s - 1, n + 1);
    }
  }

  // Exclusive or is a commutative group in which every element is its own inverse.

  lemma {:induction false} XorComm(a: nat, b: nat)
    ensures Xor(a, b) == Xor(b, a)
  {
    if a != 0 || b != 0 {
      XorComm(a / 2, b / 2);
    }
  }

  lemma {:induction false} XorAssoc(a: nat, b: nat, c: nat)
    ensures Xor(Xor(a, b), c) == Xor(a, Xor(b, c))
    decreases a + b + c
  {
    if a != 0 || b != 0 || c != 0 {
      XorAssoc(a / 2, b / 2, c / 2);
    }
  }

  lemma {:induction false} XorZero(a: nat)
    ensures Xor(a, 0) == a && Xor(0, a) == a
  {
    if a != 0 {
      XorZero(a / 2);
    }
  }

  lemma {:induction false} XorSelf(a: nat)
    ensures Xor(a, a) == 0
  {
    if a != 0 {
      XorSelf(a / 2);
    }
  }

  // Words of bits, most significant first.

  function Pack(bits: seq<bool>): (w: nat)
    ensures w < Pow2(|bits|)
  {
    if bits == [] then 0
    else 2 * Pack(bits[..|bits| - 1]) + if bits[|bits| - 1] then 1 else 0
  }

  function Unpack(w: nat, n: nat): seq<bool> {
    seq(n, i requires 0 <= i < n => Bit(w, n - 1 - i))
  }

  lemma {:induction false} PackBit(bits: seq<bool>, i: nat)
    requires i < |bits|
    ensures Bit(Pack(bits), |bits| - 1 - i) == bits[i]
    decreases |bits|
  {
    var last := |bits| - 1;
    assert Pack(bits) / 2 == Pack(bits[..last]);
    if i < last {
      PackBit(bits[..last], i);
    }
  }

  lemma UnpackPack(bits: seq<bool>)
    ensures Unpack(Pack(bits), |bits|) == bits
  {
    hide Pack, Bit;
    forall i | 0 <= i < |bits| ensures Unpack(Pack(bits), |bits|)[i] == bits[i] {
      PackBit(bits, i);
    }
  }

  /** The leading bit stands for its power of two. */
  lemma {:induction false} PackTop(bits: seq<bool>)
    requires bits != []
    ensures Pack(bits) == (if bits[0] then Pow2(|bits| - 1) else 0) + Pack(bits[1..])
    decreases |bits|
  {
    var last := |bits| - 1;
    if last > 0 {
      PackTop(bits[..last]);
      assert bits[1..][..last - 1] == bits[..last][1..];
    }
  }

  lemma PackDouble(bits: seq<bool>)
    ensures Pack(bits + [false]) == 2 * Pack(bits)
  {
    assert (bits + [false])[..|bits|] == bits;
  }

  /** Or-ing in a single bit sets its position. */
  lemma {:induction false} OrPack(bits: seq<bool>, k: nat)
    requires k < |bits|
    ensures Or(Pack(bits), Shl(1, |bits| - 1 - k)) == Pack(bits[k := true])
    decreases |bits|
  {
    var last := |bits| - 1;
    var w := bits[k := true];
    OrStep(Pack(bits), Shl(1, last - k));
    if k == last {
      assert w[..last] == bits[..last];
      OrZero(Pack(bits[..last]));
      assert Pack(bits) / 2 == Pack(bits[..last]);
    } else {
      assert w[..last] == bits[..last][k := true];
      ShlDouble(1, last - k - 1);
      OrPack(bits[..last], k);
      assert Pack(bits) / 2 == Pack(bits[..last]);
    }
  }

  lemma {:induction false} OrZero(a: nat)
    ensures Or(a, 0) == a
  {
    if a != 0 {
      OrZero(a / 2);
    }
  }

  lemma {:induction false} ShlDouble(w: nat, s: nat)
    ensures Shl(w, s + 1) == 2 * Shl(w, s)
    decreases s
  {
    if s > 0 {
      ShlDouble(2 * w, s - 1);
    }
  }

  /** The loop that builds a word from a flag prefix and single bits, most significant first. */
  method OrBits(prefix: seq<bool>, bits: seq<bool>) returns (v: nat)
    ensures v == Pack(prefix + bits)
  {
    hide Or, Shl, Pack;
    var n := |bits|;
    ghost var done := prefix + seq(n, _ => false);
    v := Pack(prefix + seq(n, _ => false));
    for i := 0 to n
      invariant |done| == |prefix| + n && v == Pack(done)
      invariant done[..|prefix| + i] == prefix + bits[..i]
      invariant forall j :: |prefix| + i <= j < |done| ==> !done[j]
    {
      if bits[i] {
        OrPack(done, |prefix| + i);
        v := Or(v, Shl(1, n - 1 - i));
        done := done[|prefix| + i := true];
      }
      assert done[..|prefix| + i + 1] == prefix + bits[..i + 1];
    }
    assert done == prefix + bits;
  }
}
