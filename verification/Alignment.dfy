/** Rounding up to a power of two with a bit mask, on 64-bit words. */
module Alignment {
  import opened Bytes

  /** Bitwise "and" of two natural numbers. */
  function And(x: nat, y: nat): nat {
    if x == 0 || y == 0 then 0 else 2 * And(x / 2, y / 2) + (x % 2) * (y % 2)
  }

  function Pow2(n: nat): (p: nat)
    ensures p > 0
  {
    if n == 0 then 1 else 2 * Pow2(n - 1)
  }

  /** Complement of a `width`-bit word. */
  function Not(x: nat, width: nat): nat
    requires x < Pow2(width)
  {
    Pow2(width) - 1 - x
  }

  const WORD: nat := 64
  const WORD_LIMIT: nat := 0x1_0000_0000_0000_0000

  /** Complement of a machine word. */
  function Complement(x: nat): nat
    requires x < WORD_LIMIT
  {
    WORD_LIMIT - 1 - x
  }

  /** The mask form; the sum must not overflow the word. */
  function AlignUp(value: nat, alignment: nat): nat
    requires alignment < WORD_LIMIT
  {
    if alignment <= 1 then value
    else And(value + (alignment - 1), Complement(alignment - 1))
  }

  lemma WordSize()
    ensures Pow2(WORD) == WORD_LIMIT
  {
    hide Pow2;
    PowNibble(0);
    PowNibble(4);
    NextByte(8);
    NextByte(16);
    NextByte(24);
    NextByte(32);
    NextByte(40);
    NextByte(48);
    NextByte(56);
    PowOne();
  }

  lemma PowOne()
    ensures Pow2(0) == 1
  {
  }

  lemma NextByte(n: nat)
    ensures Pow2(n + 8) == 256 * Pow2(n)
  {
    hide Pow2;
    PowNibble(n);
    PowNibble(n + 4);
  }

  lemma PowNibble(n: nat)
    ensures Pow2(n + 4) == 16 * Pow2(n)
  {
    assert Pow2(n + 2) == 2 * Pow2(n + 1) == 4 * Pow2(n);
    assert Pow2(n + 4) == 2 * Pow2(n + 3) == 4 * Pow2(n + 2);
  }

  lemma {:induction false} AndEven(x: nat, m: nat)
    ensures And(x, 2 * m) == 2 * And(x / 2, m)
  {
    assert (2 * m) / 2 == m && (2 * m) % 2 == 0;
  }

  lemma {:induction false} AndOdd(x: nat, m: nat)
    ensures And(x, 2 * m + 1) == 2 * And(x / 2, m) + x % 2
  {
    assert (2 * m + 1) / 2 == m && (2 * m + 1) % 2 == 1;
  }

  /** A mask and its complement split a word into two parts that add up to it. */
  lemma {:induction false} MaskSplits(x: nat, m: nat, width: nat)
    requires x < Pow2(width) && m < Pow2(width)
    ensures And(x, m) + And(x, Not(m, width)) == x
    decreases width
  {
    if width > 0 {
      var n := Not(m, width);
      assert n / 2 == Not(m / 2, width - 1) && m % 2 + n % 2 == 1;
      MaskSplits(x / 2, m / 2, width - 1);
      AndStep(x, m);
      AndStep(x, n);
      SplitBit(x % 2, m % 2, n % 2);
    }
  }

  lemma {:induction false} AndStep(x: nat, m: nat)
    ensures And(x, m) == 2 * And(x / 2, m / 2) + (x % 2) * (m % 2)
  {
    if x == 0 || m == 0 {
      assert And(x / 2, m / 2) == 0;
    }
  }

  lemma SplitBit(b: nat, m: nat, n: nat)
    requires m + n == 1
    ensures b * m + b * n == b
  {
  }

  /** Masking with `2^k - 1` leaves the remainder modulo `2^k`. */
  lemma {:induction false} LowBits(x: nat, k: nat)
    ensures And(x, Pow2(k) - 1) == x % Pow2(k)
  {
    hide And;
    if k == 0 {
      AndNothing(x);
    } else {
      LowBits(x / 2, k - 1);
      AndOdd(x, Pow2(k - 1) - 1);
      ModTwice(x, Pow2(k - 1));
    }
  }

  lemma {:induction false} AndNothing(x: nat)
    ensures And(x, 0) == 0
  {
  }

  lemma {:induction false} AndBound(x: nat, m: nat)
    ensures And(x, m) <= m
  {
    if x != 0 && m != 0 {
      AndBound(x / 2, m / 2);
    }
  }

  /** Masking with the complement of `2^k - 1` clears the `k` low bits. */
  lemma MaskClearsLowBits(x: nat, k: nat, width: nat)
    requires k <= width && x < Pow2(width)
    ensures Pow2(k) <= Pow2(width)
    ensures And(x, Not(Pow2(k) - 1, width)) == x - x % Pow2(k)
  {
    hide And, Pow2;
    PowMonotone(k, width);
    MaskSplits(x, Pow2(k) - 1, width);
    LowBits(x, k);
  }

  lemma {:induction false} PowMonotone(k: nat, width: nat)
    requires k <= width
    ensures Pow2(k) <= Pow2(width)
    decreases width
  {
    if k < width {
      PowMonotone(k, width - 1);
    }
  }

  lemma ModTwice(x: nat, p: nat)
    requires p > 0
    ensures x % (2 * p) == 2 * ((x / 2) % p) + x % 2
  {
    var h := x / 2;
    var q, r := h / p, h % p;
    assert x == (2 * p) * q + (2 * r + x % 2) by {
      assert h == p * q + r;
      assert 2 * (p * q) == (2 * p) * q;
    }
    RemainderUnique(x, 2 * p, q, 2 * r + x % 2);
  }

  lemma RemainderUnique(x: nat, m: nat, q: nat, r: nat)
    requires m > 0 && x == m * q + r && r < m
    ensures x % m == r
  {
    var q', r' := x / m, x % m;
    assert x == m * q' + r';
    if q' > q {
      MulGap(m, q', q);
    } else if q' < q {
      MulGap(m, q, q');
    }
  }

  lemma {:induction false} MulGap(m: nat, a: nat, b: nat)
    requires a > b
    ensures m * a >= m * b + m
  {
    if a > b + 1 {
      MulGap(m, a - 1, b);
    }
    assert m * a == m * (a - 1) + m;
  }

  ghost predicate IsPowerOf2(a: nat) {
    exists k: nat :: a == Pow2(k)
  }

  ghost predicate LeastMultiple(r: nat, value: nat, alignment: nat)
    requires alignment > 0
  {
    r >= value && r % alignment == 0 && r - value < alignment
  }

  /** Whatever the alignment, the mask form never goes below the value and adds less than the
      alignment, so the padding up to it can be computed without underflow. */
  lemma AlignUpBounds(value: nat, alignment: nat)
    requires alignment < WORD_LIMIT && value + alignment <= WORD_LIMIT
    ensures value <= AlignUp(value, alignment)
    ensures AlignUp(value, alignment) == value || AlignUp(value, alignment) - value < alignment
  {
    hide And, Pow2;
    WordSize();
    if alignment > 1 {
      MaskSplits(value + (alignment - 1), alignment - 1, WORD);
      AndBound(value + (alignment - 1), alignment - 1);
    }
  }

  /** For alignments 0 and 1 nothing changes; for a power of two the mask gives the least multiple
      that is not below the value. */
  lemma AlignUpIsLeast(value: nat, alignment: nat)
    requires alignment == 0 || IsPowerOf2(alignment)
    requires alignment < WORD_LIMIT && value + alignment <= WORD_LIMIT
    ensures alignment <= 1 ==> AlignUp(value, alignment) == value
    ensures alignment > 0 ==> LeastMultiple(AlignUp(value, alignment), value, alignment)
  {
    hide And, Pow2, LeastMultiple;
    WordSize();
    if alignment > 1 {
      var k: nat :| alignment == Pow2(k);
      if k > WORD {
        PowMonotone(WORD, k);
      }
      MaskClearsLowBits(value + (alignment - 1), k, WORD);
      RoundedUp(value, alignment);
    } else if alignment == 1 {
      RoundedUp(value, 1);
    }
  }

  lemma RoundedUp(value: nat, m: nat)
    requires m > 0
    ensures var x := value + (m - 1);
      LeastMultiple(x - x % m, value, m)
    ensures m == 1 ==> LeastMultiple(value, value, 1)
  {
    FloorIsMultiple(value + (m - 1), m);
  }

  lemma FloorIsMultiple(x: nat, m: nat)
    requires m > 0
    ensures (x - x % m) % m == 0
  {
    assert x - x % m == m * (x / m);
    RemainderUnique(x - x % m, m, x / m, 0);
  }

  // Below the lowest set bit of `a`, `a` and the complement of `a - 1` agree; above they are opposite.
  lemma {:induction false} MaskKeepsLowestBit(a: nat, width: nat)
    requires 0 < a < Pow2(width)
    ensures a - 1 < Pow2(width)
    ensures IsPowerOf2(And(a, Not(a - 1, width)))
    decreases width
  {
    hide And;
    var h, w := a / 2, Pow2(width - 1);
    if a % 2 == 1 {
      Opposite(h, width - 1);
      LowestBitOdd(h, w);
      assert 1 == Pow2(0);
    } else {
      MaskKeepsLowestBit(h, width - 1);
      var k: nat :| And(h, Not(h - 1, width - 1)) == Pow2(k);
      LowestBitEven(h, w);
      assert 2 * Pow2(k) == Pow2(k + 1);
    }
  }

  lemma {:induction false} LowestBitOdd(h: nat, w: nat)
    requires h < w && And(h, w - 1 - h) == 0
    ensures And(2 * h + 1, 2 * w - 1 - (2 * h + 1 - 1)) == 1
  {
    hide And;
    AndOdd(2 * h + 1, w - 1 - h);
  }

  lemma LowestBitEven(h: nat, w: nat)
    requires 0 < h < w
    ensures And(2 * h, 2 * w - 1 - (2 * h - 1)) == 2 * And(h, w - 1 - (h - 1))
  {
    hide And;
    AndEven(2 * h, w - h);
  }

  lemma {:induction false} Opposite(x: nat, width: nat)
    requires x < Pow2(width)
    ensures And(x, Not(x, width)) == 0
    decreases width
  {
    if x > 0 {
      var y := Not(x, width);
      assert y / 2 == Not(x / 2, width - 1) && x % 2 + y % 2 == 1;
      Opposite(x / 2, width - 1);
    }
  }

  lemma OneIsPower()
    ensures IsPowerOf2(1)
  {
    assert Pow2(0) == 1;
  }

  /** The mask rounds every value up to the least multiple exactly for the alignments 1 and powers of
      two: for any other alignment it already fails on the value 1. */
  lemma AlignUpNeedsPowerOf2(alignment: nat)
    requires 0 < alignment && alignment < WORD_LIMIT
    ensures LeastMultiple(AlignUp(1, alignment), 1, alignment) <==> IsPowerOf2(alignment)
  {
    hide And, Pow2;
    WordSize();
    OneIsPower();
    if IsPowerOf2(alignment) {
      AlignUpIsLeast(1, alignment);
    } else {
      MaskKeepsLowestBit(alignment, WORD);
      var r := AlignUp(1, alignment);
      if r >= 1 && r % alignment == 0 && r - 1 < alignment {
        RemainderUnique(r, alignment, if r == alignment then 1 else 0, if r == alignment then 0 else r);
      }
    }
  }
}
