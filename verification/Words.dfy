/** Fixed-width machine words as naturals: powers of two, single bits, and the C++ operators
    `|`, `&`, `<<` and `>>` given by their bits. */
module Words {

  function Pow2(n: nat): (p: nat)
    ensures p > 0
  {
    if n == 0 then 1 else 2 * Pow2(n - 1)
  }

  type byte = b: nat | b < 256

  type uint32 = v: nat | v < 0x1_0000_0000

  type uint64 = v: nat | v < Pow2(64) witness 0

  /** Bit `k` of `x`, counted from the least significant one. */
  predicate Bit(x: nat, k: nat)
    decreases k
  {
    if k == 0 then x % 2 == 1 else Bit(x / 2, k - 1)
  }

  function BitOr(a: nat, b: nat): nat
  {
    if a == 0 then b
    else if b == 0 then a
    else 2 * BitOr(a / 2, b / 2) + (if a % 2 == 1 || b % 2 == 1 then 1 else 0)
  }

  function BitAnd(a: nat, b: nat): nat
  {
    if a == 0 || b == 0 then 0
    else 2 * BitAnd(a / 2, b / 2) + (if a % 2 == 1 && b % 2 == 1 then 1 else 0)
  }

  /** `x << k`, without a width: callers bound the result. */
  function Shl(x: nat, k: nat): nat
    decreases k
  {
    if k == 0 then x else 2 * Shl(x, k - 1)
  }

  function Shr(x: nat, k: nat): nat
    decreases k
  {
    if k == 0 then x else Shr(x / 2, k - 1)
  }

  /** The low `n` bits of `x`, as a number. */
  function Trunc(x: nat, n: nat): (t: nat)
    ensures t < Pow2(n)
    decreases n
  {
    if n == 0 then 0 else x % 2 + 2 * Trunc(x / 2, n - 1)
  }

  // ---------------------------------------------------------------- arithmetic meaning

  /** Shifting left multiplies by a power of two. */
  lemma {:induction false} ShlIsTimes(x: nat, k: nat)
    ensures Shl(x, k) == x * Pow2(k)
    decreases k
  {
    if k > 0 {
      ShlIsTimes(x, k - 1);
    }
  }

  /** Shifting right divides by a power of two; truncation is the remainder. */
  lemma {:induction false} ShrIsDiv(x: nat, k: nat)
    ensures Shr(x, k) == x / Pow2(k)
    ensures Trunc(x, k) == x % Pow2(k)
  {
    ShrTrunc(x, k);
    ShlIsTimes(Shr(x, k), k);
    DivUnique(x, Pow2(k), Shr(x, k), Trunc(x, k));
  }

  lemma {:induction false} ShrTrunc(x: nat, k: nat)
    ensures x == Shl(Shr(x, k), k) + Trunc(x, k)
    decreases k
  {
    if k > 0 {
      ShrTrunc(x / 2, k - 1);
    }
  }

  lemma DivUnique(x: nat, d: nat, q: nat, r: nat)
    requires d > 0 && r < d && x == q * d + r
    ensures x / d == q && x % d == r
  {
    var q', r' := x / d, x % d;
    assert x == q' * d + r';
    assert q' < q ==> (q' + 1) * d <= q * d;
    assert q < q' ==> (q + 1) * d <= q' * d;
  }

  lemma {:induction false} ShlOne(k: nat)
    ensures Shl(1, k) == Pow2(k)
    decreases k
  {
    if k > 0 {
      ShlOne(k - 1);
    }
  }

  lemma {:induction false} ShlSum(x: nat, y: nat, k: nat)
    ensures Shl(x + y, k) == Shl(x, k) + Shl(y, k)
    decreases k
  {
    if k > 0 {
      ShlSum(x, y, k - 1);
    }
  }

  lemma {:induction false} ShlAdd(x: nat, a: nat, b: nat)
    ensures Shl(Shl(x, a), b) == Shl(x, a + b)
    decreases b
  {
    if b > 0 {
      ShlAdd(x, a, b - 1);
    }
  }

  /** Adding below a shifted number does not disturb it, nor is it disturbed. */
  lemma {:induction false} ShlPlus(hi: nat, lo: nat, k: nat)
    requires lo < Pow2(k)
    ensures Shr(lo + Shl(hi, k), k) == hi
    ensures Trunc(lo + Shl(hi, k), k) == lo
    decreases k
  {
    if k > 0 {
      var x := lo + Shl(hi, k);
      assert x / 2 == lo / 2 + Shl(hi, k - 1) && x % 2 == lo % 2;
      ShlPlus(hi, lo / 2, k - 1);
    }
  }

  lemma {:induction false} TruncSmall(x: nat, n: nat)
    requires x < Pow2(n)
    ensures Trunc(x, n) == x
    decreases n
  {
    if n > 0 {
      TruncSmall(x / 2, n - 1);
    }
  }

  // ---------------------------------------------------------------- bits

  lemma {:induction false} ZeroBits(k: nat)
    ensures !Bit(0, k)
  {
    if k > 0 {
      ZeroBits(k - 1);
    }
  }

  lemma ZeroWord()
    ensures forall k: nat :: !Bit(0, k)
  {
    forall k: nat
      ensures !Bit(0, k)
    {
      ZeroBits(k);
    }
  }

  /** Truncation keeps the low bits and clears the others. */
  lemma {:induction false} BitOfTrunc(x: nat, n: nat, k: nat)
    ensures Bit(Trunc(x, n), k) == (k < n && Bit(x, k))
    decreases n
  {
    if n == 0 {
      ZeroBits(k);
    } else if k > 0 {
      BitOfTrunc(x / 2, n - 1, k - 1);
    }
  }

  lemma {:induction false} BitOfOr(a: nat, b: nat, k: nat)
    ensures Bit(BitOr(a, b), k) == (Bit(a, k) || Bit(b, k))
    decreases k
  {
    ZeroBits(k);
    if a != 0 && b != 0 {
      var r := BitOr(a, b);
      assert r / 2 == BitOr(a / 2, b / 2);
      if k > 0 {
        BitOfOr(a / 2, b / 2, k - 1);
      }
    }
  }

  lemma {:induction false} BitOfAnd(a: nat, b: nat, k: nat)
    ensures Bit(BitAnd(a, b), k) == (Bit(a, k) && Bit(b, k))
    decreases k
  {
    ZeroBits(k);
    if a != 0 && b != 0 {
      var r := BitAnd(a, b);
      assert r / 2 == BitAnd(a / 2, b / 2);
      if k > 0 {
        BitOfAnd(a / 2, b / 2, k - 1);
      }
    }
  }

  lemma {:induction false} BitOfPow2(n: nat, k: nat)
    ensures Bit(Pow2(n), k) == (k == n)
    decreases k
  {
    if n == 0 {
      if k > 0 { ZeroBits(k - 1); }
    } else {
      assert Pow2(n) / 2 == Pow2(n - 1) && Pow2(n) % 2 == 0;
      if k > 0 { BitOfPow2(n - 1, k - 1); }
    }
  }

  /** The test `x & (1 << k)` that the bit loops branch on. */
  lemma {:induction false} AndMask(x: nat, k: nat)
    ensures (BitAnd(x, Shl(1, k)) != 0) == Bit(x, k)
  {
    ShlOne(k);
    var m := BitAnd(x, Pow2(k));
    if Bit(x, k) {
      BitOfPow2(k, k);
      BitOfAnd(x, Pow2(k), k);
      ZeroBits(k);
    } else if m != 0 {
      var j := SomeBit(m);
      BitOfAnd(x, Pow2(k), j);
      BitOfPow2(k, j);
    }
  }

  lemma {:induction false} SomeBit(x: nat) returns (k: nat)
    requires x > 0
    ensures Bit(x, k)
    decreases x
  {
    if x % 2 == 1 {
      k := 0;
    } else {
      var j := SomeBit(x / 2);
      k := j + 1;
    }
  }

  /** A word of `n` bits is determined by them. */
  lemma {:induction false} SameBits(a: nat, b: nat, n: nat)
    requires a < Pow2(n) && b < Pow2(n)
    requires forall k: nat | k < n :: Bit(a, k) == Bit(b, k)
    ensures a == b
    decreases n
  {
    if n > 0 {
      assert Bit(a, 0) == Bit(b, 0);
      forall k: nat | k < n - 1
        ensures Bit(a / 2, k) == Bit(b / 2, k)
      {
        assert Bit(a, k + 1) == Bit(b, k + 1);
      }
      SameBits(a / 2, b / 2, n - 1);
    }
  }

  lemma {:induction false} OrBound(a: nat, b: nat, n: nat)
    requires a < Pow2(n) && b < Pow2(n)
    ensures BitOr(a, b) < Pow2(n)
    decreases n
  {
    if n > 0 && a != 0 && b != 0 {
      OrBound(a / 2, b / 2, n - 1);
    }
  }

  lemma {:induction false} HighBitsClear(x: nat, n: nat, k: nat)
    requires x < Pow2(n) && n <= k
    ensures !Bit(x, k)
    decreases n
  {
    if n == 0 {
      ZeroBits(k);
    } else {
      HighBitsClear(x / 2, n - 1, k - 1);
    }
  }

  lemma {:induction false} Pow2Monotone(a: nat, b: nat)
    requires a <= b
    ensures Pow2(a) <= Pow2(b)
    decreases b - a
  {
    if a < b {
      Pow2Monotone(a, b - 1);
    }
  }

  lemma Pow2Values()
    ensures Pow2(3) == 8 && Pow2(6) == 64 && Pow2(8) == 0x100 && Pow2(9) == 0x200
    ensures Pow2(16) == 0x1_0000 && Pow2(23) == 0x80_0000 && Pow2(32) == 0x1_0000_0000
  {
    assert Pow2(3) == 8;
    assert Pow2(6) == 64;
    assert Pow2(9) == 0x200;
    assert Pow2(12) == 0x1000;
    assert Pow2(16) == 0x1_0000;
    assert Pow2(20) == 0x10_0000;
    assert Pow2(23) == 0x80_0000;
    assert Pow2(26) == 0x400_0000;
    assert Pow2(29) == 0x2000_0000;
    assert Pow2(32) == 0x1_0000_0000;
  }

  /** `x >> k` moves bit `k + j` to place `j`. */
  lemma {:induction false} BitOfShr(x: nat, k: nat, j: nat)
    ensures Bit(Shr(x, k), j) == Bit(x, k + j)
    decreases k
  {
    if k > 0 {
      BitOfShr(x / 2, k - 1, j);
    }
  }

  // ---------------------------------------------------------------- bits as numbers

  /** The number a sequence of bits spells, least significant bit first. */
  function NumLow(bs: seq<bool>): nat
  {
    if bs == [] then 0 else (if bs[0] then 1 else 0) + 2 * NumLow(bs[1..])
  }

  /** The number a sequence of bits spells, most significant bit first. */
  function NumHigh(bs: seq<bool>): nat
  {
    if bs == [] then 0
    else 2 * NumHigh(bs[..|bs| - 1]) + (if bs[|bs| - 1] then 1 else 0)
  }

  /** The low `n` bits of `x`, least significant bit first. */
  function LowFirst(x: nat, n: nat): (bs: seq<bool>)
    ensures |bs| == n
    decreases n
  {
    if n == 0 then [] else [x % 2 == 1] + LowFirst(x / 2, n - 1)
  }

  /** The low `n` bits of `x`, most significant bit first. */
  function HighFirst(x: nat, n: nat): (bs: seq<bool>)
    ensures |bs| == n
    decreases n
  {
    if n == 0 then [] else HighFirst(x / 2, n - 1) + [x % 2 == 1]
  }

  lemma {:induction false} LowFirstAt(x: nat, n: nat, i: nat)
    requires i < n
    ensures LowFirst(x, n)[i] == Bit(x, i)
    decreases n
  {
    if i > 0 {
      LowFirstAt(x / 2, n - 1, i - 1);
    }
  }

  lemma {:induction false} HighFirstAt(x: nat, n: nat, i: nat)
    requires i < n
    ensures HighFirst(x, n)[i] == Bit(x, n - 1 - i)
    decreases n
  {
    if i < n - 1 {
      HighFirstAt(x / 2, n - 1, i);
    }
  }

  lemma {:induction false} LowRoundTrip(bs: seq<bool>)
    ensures NumLow(bs) < Pow2(|bs|)
    ensures LowFirst(NumLow(bs), |bs|) == bs
  {
    if bs != [] {
      LowRoundTrip(bs[1..]);
      assert NumLow(bs) / 2 == NumLow(bs[1..]);
    }
  }

  lemma {:induction false} HighRoundTrip(bs: seq<bool>)
    ensures NumHigh(bs) < Pow2(|bs|)
    ensures HighFirst(NumHigh(bs), |bs|) == bs
  {
    if bs != [] {
      HighRoundTrip(bs[..|bs| - 1]);
      assert NumHigh(bs) / 2 == NumHigh(bs[..|bs| - 1]);
    }
  }

  lemma {:induction false} NumOfBits(x: nat, n: nat)
    ensures NumLow(LowFirst(x, n)) == Trunc(x, n)
    ensures NumHigh(HighFirst(x, n)) == Trunc(x, n)
    decreases n
  {
    if n > 0 {
      NumOfBits(x / 2, n - 1);
      assert LowFirst(x, n)[1..] == LowFirst(x / 2, n - 1);
      assert HighFirst(x, n)[..n - 1] == HighFirst(x / 2, n - 1);
    }
  }

  lemma {:induction false} NumLowConcat(a: seq<bool>, b: seq<bool>)
    ensures NumLow(a + b) == NumLow(a) + Shl(NumLow(b), |a|)
  {
    if a == [] {
      assert a + b == b;
    } else {
      assert (a + b)[1..] == a[1..] + b;
      NumLowConcat(a[1..], b);
    }
  }

  lemma {:induction false} NumHighConcat(a: seq<bool>, b: seq<bool>)
    ensures NumHigh(a + b) == NumHigh(b) + Shl(NumHigh(a), |b|)
    decreases |b|
  {
    if b == [] {
      assert a + b == a;
    } else {
      assert (a + b)[..|a + b| - 1] == a + b[..|b| - 1];
      NumHighConcat(a, b[..|b| - 1]);
    }
  }

  /** Or-ing the mask `1 << j` into an `n`-bit word sets bit `j` and no other. */
  lemma OrMask(x: nat, n: nat, j: nat)
    requires x < Pow2(n) && j < n
    ensures BitOr(x, Shl(1, j)) < Pow2(n)
    ensures forall k: nat :: Bit(BitOr(x, Shl(1, j)), k) == (Bit(x, k) || k == j)
  {
    ShlOne(j);
    Pow2Monotone(j + 1, n);
    OrBound(x, Pow2(j), n);
    forall k: nat
      ensures Bit(BitOr(x, Pow2(j)), k) == (Bit(x, k) || k == j)
    {
      BitOfOr(x, Pow2(j), k);
      BitOfPow2(j, k);
    }
  }

  /** Or-ing disjoint ranges of bits is adding. */
  lemma {:induction false} OrIsPlus(hi: nat, lo: nat, k: nat)
    requires lo < Pow2(k)
    ensures BitOr(Shl(hi, k), lo) == Shl(hi, k) + lo
    ensures BitOr(lo, Shl(hi, k)) == Shl(hi, k) + lo
    decreases k
  {
    if k > 0 {
      OrIsPlus(hi, lo / 2, k - 1);
    }
  }

  /** The low byte `x & 0xFF`. */
  lemma LowByte(x: nat)
    ensures BitAnd(x, 0xFF) < 256
    ensures forall k: nat | k < 8 :: Bit(BitAnd(x, 0xFF), k) == Bit(x, k)
  {
    Pow2Values();
    AndBound(x, 0xFF, 8);
    forall k: nat | k < 8
      ensures Bit(BitAnd(x, 0xFF), k) == Bit(x, k)
    {
      BitOfAnd(x, 0xFF, k);
      AllOnes(8, k);
    }
  }

  lemma {:induction false} AllOnes(n: nat, k: nat)
    requires k < n
    ensures Bit(Pow2(n) - 1, k)
    decreases n
  {
    if k > 0 {
      assert (Pow2(n) - 1) / 2 == Pow2(n - 1) - 1;
      AllOnes(n - 1, k - 1);
    }
  }

  lemma {:induction false} AndBound(a: nat, b: nat, n: nat)
    requires b < Pow2(n)
    ensures BitAnd(a, b) < Pow2(n)
    decreases n
  {
    if n > 0 && a != 0 && b != 0 {
      AndBound(a / 2, b / 2, n - 1);
    }
  }
}
