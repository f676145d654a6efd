/** Natural-number bit operations: the C operators << ^ & ~ on unsigned words that do not
    overflow, defined bit by bit, and the arithmetic facts the kernel relies on. */
module Bits {

  function Pow2(k: nat): (r: nat)
    ensures r > 0
  {
    if k == 0 then 1 else 2 * Pow2(k - 1)
  }

  /** Bitwise exclusive or. */
  function Xor(a: nat, b: nat): nat
  {
    if a == 0 then b
    else if b == 0 then a
    else (if a % 2 == b % 2 then 0 else 1) + 2 * Xor(a / 2, b / 2)
  }

  /** Bitwise and. */
  function And(a: nat, b: nat): nat
  {
    if a == 0 || b == 0 then 0
    else (if a % 2 == 1 && b % 2 == 1 then 1 else 0) + 2 * And(a / 2, b / 2)
  }

  /** Bitwise or. */
  function Or(a: nat, b: nat): nat
  {
    if a == 0 then b
    else if b == 0 then a
    else (if a % 2 == 1 || b % 2 == 1 then 1 else 0) + 2 * Or(a / 2, b / 2)
  }

  /** Bit k of x. */
  predicate Bit(x: nat, k: nat) {
    if k == 0 then x % 2 == 1 else Bit(x / 2, k - 1)
  }

  /** The low k bits of x. */
  function Low(x: nat, k: nat): nat {
    if k == 0 then 0 else x % 2 + 2 * Low(x / 2, k - 1)
  }

  /** The low k bits of x are clear. */
  predicate Aligned(x: nat, k: nat) {
    k == 0 || (x % 2 == 0 && Aligned(x / 2, k - 1))
  }

  // ----- What the three mean in arithmetic ---------------------------------

  /** x = d * q + r with 0 <= r < d fixes quotient and remainder. */
  lemma DivModUnique(x: nat, d: nat, q: int, r: nat)
    requires d > 0 && r < d && x == d * q + r
    ensures x / d == q && x % d == r
  {
    var e := x / d - q;
    assert d * e == r - x % d by {
      assert x == d * (x / d) + x % d;
      assert d * e == d * (x / d) - d * q;
    }
    assert e >= 1 ==> d * e >= d;
    assert e <= -1 ==> d * e <= 0 - d;
  }

  lemma DoubleMul(a: int, b: int)
    ensures 2 * a * b == 2 * (a * b)
  {
  }

  lemma HalveDivMod(x: nat, d: nat)
    requires d > 0
    ensures x % (2 * d) == x % 2 + 2 * (x / 2 % d)
    ensures x / (2 * d) == x / 2 / d
  {
    var y := x / 2;
    assert y == d * (y / d) + y % d;
    DoubleMul(d, y / d);
    DivModUnique(x, 2 * d, y / d, x % 2 + 2 * (y % d));
  }

  lemma {:induction false} BitIsDivMod(x: nat, k: nat)
    ensures Bit(x, k) <==> x / Pow2(k) % 2 == 1
  {
    if k > 0 {
      BitIsDivMod(x / 2, k - 1);
      HalveDivMod(x, Pow2(k - 1));
    }
  }

  /** Aligned means divisible by 2^k. */
  lemma {:induction false} AlignedIsMod(x: nat, k: nat)
    ensures Aligned(x, k) <==> x % Pow2(k) == 0
  {
    if k > 0 {
      AlignedIsMod(x / 2, k - 1);
      HalveDivMod(x, Pow2(k - 1));
    }
  }

  // ----- Powers -------------------------------------------------------------

  lemma {:induction false} Pow2Monotone(j: nat, k: nat)
    requires j <= k
    ensures Pow2(j) <= Pow2(k)
    ensures j < k ==> 2 * Pow2(j) <= Pow2(k)
  {
    if j < k {
      Pow2Monotone(j, k - 1);
    }
  }

  // ----- Low bits and alignment ----------------------------------------------

  lemma {:induction false} LowBound(x: nat, k: nat)
    ensures Low(x, k) <= x && Low(x, k) < Pow2(k)
    ensures x < Pow2(k) ==> Low(x, k) == x
  {
    if k > 0 {
      LowBound(x / 2, k - 1);
    }
  }

  /** One more binary digit. */
  lemma {:induction false} LowSplit(x: nat, k: nat)
    ensures Low(x, k + 1) == (if Bit(x, k) then Pow2(k) else 0) + Low(x, k)
  {
    if k > 0 {
      LowSplit(x / 2, k - 1);
    }
  }

  /** A number below 2^k has no bit from k up. */
  lemma {:induction false} NoHighBit(x: nat, k: nat, n: nat)
    requires x < Pow2(k) && k <= n
    ensures !Bit(x, n)
  {
    if n > 0 {
      if k == 0 {
        NoHighBit(x / 2, 0, n - 1);
      } else {
        NoHighBit(x / 2, k - 1, n - 1);
      }
    }
  }

  /** Aligned one level higher: aligned, with the next bit clear. */
  lemma {:induction false} AlignedStep(x: nat, k: nat)
    ensures Aligned(x, k + 1) <==> Aligned(x, k) && !Bit(x, k)
  {
    if k > 0 {
      AlignedStep(x / 2, k - 1);
    }
  }

  lemma {:induction false} AlignedDown(x: nat, j: nat, k: nat)
    requires k <= j && Aligned(x, j)
    ensures Aligned(x, k)
  {
    if k > 0 {
      AlignedDown(x / 2, j - 1, k - 1);
    }
  }

  /** Adding or taking away 2^j keeps alignment to every 2^k with k <= j. */
  lemma {:induction false} AlignedShift(x: nat, j: nat, k: nat)
    requires k <= j && Aligned(x, k)
    ensures Aligned(x + Pow2(j), k)
    ensures x >= Pow2(j) ==> Aligned(x - Pow2(j), k)
  {
    if k > 0 {
      var h, p := x / 2, Pow2(j - 1);
      AlignedShift(h, j - 1, k - 1);
      assert x == 2 * h && Pow2(j) == 2 * p;
      hide Pow2;
      assert Aligned(2 * (h + p), k) by { assert 2 * (h + p) / 2 == h + p; }
      if x >= Pow2(j) {
        assert Aligned(2 * (h - p), k) by { assert 2 * (h - p) / 2 == h - p; }
      }
    }
  }

  /** The upper half above an aligned start has bit k set, and its lower half starts below it. */
  lemma {:induction false} UpperBit(x: nat, k: nat)
    requires Aligned(x, k + 1)
    ensures Bit(x + Pow2(k), k)
  {
    if k > 0 {
      UpperBit(x / 2, k - 1);
    }
  }

  lemma {:induction false} BitBelow(x: nat, k: nat)
    requires Bit(x, k)
    ensures x >= Pow2(k)
    ensures Aligned(x, k) ==> Aligned(x - Pow2(k), k + 1)
  {
    if k > 0 {
      BitBelow(x / 2, k - 1);
    }
  }

  // ----- The operators ---------------------------------------------------------

  /** Exclusive or with one bit flips exactly that bit. */
  lemma {:induction false} XorBit(x: nat, k: nat)
    ensures Bit(x, k) ==> x >= Pow2(k)
    ensures Xor(x, Pow2(k)) == if Bit(x, k) then x - Pow2(k) else x + Pow2(k)
  {
    if x == 0 {
      NoHighBit(0, 0, k);
    } else if k == 0 {
      assert Xor(x, 1) == (if x % 2 == 1 then 0 else 1) + 2 * Xor(x / 2, 0);
      assert Xor(x / 2, 0) == x / 2;
    } else {
      XorBit(x / 2, k - 1);
      assert Pow2(k) % 2 == 0 && Pow2(k) / 2 == Pow2(k - 1);
    }
  }

  /** Testing one bit with a mask. */
  lemma {:induction false} AndBit(x: nat, k: nat)
    ensures And(x, Pow2(k)) == if Bit(x, k) then Pow2(k) else 0
  {
    if x == 0 {
      NoHighBit(0, 0, k);
    } else if k == 0 {
      assert And(x / 2, 0) == 0;
    } else {
      AndBit(x / 2, k - 1);
      assert Pow2(k) % 2 == 0 && Pow2(k) / 2 == Pow2(k - 1);
    }
  }

  /** Or-ing in a clear bit adds it. */
  lemma {:induction false} OrClear(x: nat, k: nat)
    requires !Bit(x, k)
    ensures Or(x, Pow2(k)) == x + Pow2(k)
  {
    if x == 0 {
    } else if k == 0 {
      assert Or(x / 2, 0) == x / 2;
    } else {
      OrClear(x / 2, k - 1);
      assert Pow2(k) % 2 == 0 && Pow2(k) / 2 == Pow2(k - 1);
    }
  }

  /** Or-ing flags below an aligned address adds them. */
  lemma {:induction false} OrAligned(x: nat, y: nat, k: nat)
    requires Aligned(x, k) && y < Pow2(k)
    ensures Or(x, y) == x + y
  {
    if x != 0 && y != 0 {
      OrAligned(x / 2, y / 2, k - 1);
    }
  }

  /** The n-bit mask with its low k bits clear: ~(2^k - 1) in an n-bit word. */
  function HighMask(n: nat, k: nat): nat
    requires k <= n
  {
    Pow2Monotone(k, n);
    Pow2(n) - Pow2(k)
  }

  /** A word above its lowest bit is the mask of the half word, doubled, and its lowest bit. */
  lemma HighMaskHalf(n: nat, k: nat)
    requires 0 < n && k <= n
    ensures k == 0 ==> HighMask(n, k) == 1 + 2 * HighMask(n - 1, 0)
    ensures k > 0 ==> HighMask(n, k) == 2 * HighMask(n - 1, k - 1)
  {
  }

  /** One binary digit of a conjunction. */
  lemma AndDigit(x: nat, h: nat, bit: nat)
    requires bit < 2
    ensures And(x, 2 * h + bit) == x % 2 * bit + 2 * And(x / 2, h)
  {
    if x != 0 && 2 * h + bit != 0 {
      assert (2 * h + bit) % 2 == bit && (2 * h + bit) / 2 == h;
    }
  }

  /** Masking with ~(2^k - 1) clears the low k bits. */
  lemma {:induction false} AndHighMask(x: nat, n: nat, k: nat)
    requires k <= n && x < Pow2(n)
    ensures And(x, HighMask(n, k)) == x - Low(x, k)
  {
    if n > 0 {
      var h := if k == 0 then 0 else k - 1;
      assert x / 2 < Pow2(n - 1) by { assert Pow2(n) == 2 * Pow2(n - 1); }
      AndHighMask(x / 2, n - 1, h);
      HighMaskHalf(n, k);
      AndDigit(x, HighMask(n - 1, h), if k == 0 then 1 else 0);
      assert Low(x, k) == if k == 0 then 0 else x % 2 + 2 * Low(x / 2, h);
      assert k == 0 ==> Low(x / 2, h) == 0;
      hide And, HighMask, Low, Pow2;
    } else {
      assert Pow2(0) == 1 && x == 0;
    }
  }

  lemma {:induction false} FloorAligned(x: nat, k: nat)
    ensures x >= Low(x, k) && Aligned(x - Low(x, k), k)
  {
    LowBound(x, k);
    if k > 0 {
      var h, l := x / 2, Low(x / 2, k - 1);
      FloorAligned(h, k - 1);
      assert x - Low(x, k) == 2 * (h - l);
      assert (2 * (h - l)) / 2 == h - l;
    }
  }

  /** Rounding up to a multiple of 2^k in an n-bit word with the add-then-mask idiom. */
  function RoundUp(x: nat, k: nat, n: nat): nat
    requires k <= n
  {
    And(x + Pow2(k) - 1, HighMask(n, k))
  }

  lemma RoundUpMeaning(x: nat, k: nat, n: nat)
    requires k <= n && x + Pow2(k) <= Pow2(n)
    ensures x <= RoundUp(x, k, n) < x + Pow2(k)
    ensures Aligned(RoundUp(x, k, n), k)
  {
    var y := x + Pow2(k) - 1;
    AndHighMask(y, n, k);
    FloorAligned(y, k);
    LowBound(y, k);
  }

  lemma XorDouble(a: nat, b: nat)
    ensures Xor(2 * a, 2 * b) == 2 * Xor(a, b)
  {
  }

  lemma ScaleTwice(m: nat, p: nat, b: nat, x: nat)
    requires Xor(m * p, b) == m * x
    ensures Xor(2 * m * p, 2 * b) == 2 * m * x
  {
    hide Xor;
    DoubleMul(m, p);
    DoubleMul(m, x);
    XorDouble(m * p, b);
  }

  /** The byte-address exclusive or of the source is the page-number one scaled by the page size. */
  lemma {:induction false} XorScale(p: nat, k: nat, s: nat)
    ensures Xor(Pow2(s) * p, Pow2(k + s)) == Pow2(s) * Xor(p, Pow2(k))
  {
    if s == 0 {
      assert Pow2(0) == 1;
    } else {
      XorScale(p, k, s - 1);
      assert Pow2(s) == 2 * Pow2(s - 1) && Pow2(k + s) == 2 * Pow2(k + s - 1);
      hide Xor, Pow2;
      ScaleTwice(Pow2(s - 1), p, Pow2(k + s - 1), Xor(p, Pow2(k)));
    }
  }
}
