/** Machine words as natural numbers: bitwise operators defined bit by bit, with the laws the other
    modules need. */
module Bits {

  function Pow2(n: nat): (r: nat)
    ensures r > 0
  {
    if n == 0 then 1 else 2 * Pow2(n - 1)
  }

  lemma {:induction false} Pow2Adds(m: nat, n: nat)
    ensures Pow2(m + n) == Pow2(m) * Pow2(n)
  {
    if m > 0 {
      Pow2Adds(m - 1, n);
    }
  }

  /** Bit `i` of `x`. */
  predicate Bit(x: nat, i: nat) {
    if i == 0 then x % 2 == 1 else Bit(x / 2, i - 1)
  }

  function BitOr(x: nat, y: nat): nat {
    if x == 0 then y
    else 2 * BitOr(x / 2, y / 2) + (if x % 2 == 1 || y % 2 == 1 then 1 else 0)
  }

  function BitAnd(x: nat, y: nat): nat {
    if x == 0 then 0
    else 2 * BitAnd(x / 2, y / 2) + (if x % 2 == 1 && y % 2 == 1 then 1 else 0)
  }

  lemma {:induction false} OrBits(x: nat, y: nat, i: nat)
    ensures Bit(BitOr(x, y), i) == (Bit(x, i) || Bit(y, i))
  {
    if x == 0 {
      ZeroBits(i);
    } else if i > 0 {
      OrBits(x / 2, y / 2, i - 1);
    }
  }

  lemma {:induction false} AndBits(x: nat, y: nat, i: nat)
    ensures Bit(BitAnd(x, y), i) == (Bit(x, i) && Bit(y, i))
  {
    if x == 0 {
      ZeroBits(i);
    } else if i > 0 {
      AndBits(x / 2, y / 2, i - 1);
    }
  }

  lemma {:induction false} ZeroBits(i: nat)
    ensures !Bit(0, i)
  {
    if i > 0 {
      ZeroBits(i - 1);
    }
  }

  /** A number is determined by its bits. */
  lemma {:induction false} SameBits(x: nat, y: nat)
    requires forall i: nat :: Bit(x, i) == Bit(y, i)
    ensures x == y
    decreases x + y
  {
    assert Bit(x, 0) == Bit(y, 0);
    if x != 0 || y != 0 {
      forall i: nat
        ensures Bit(x / 2, i) == Bit(y / 2, i)
      {
        assert Bit(x, i + 1) == Bit(y, i + 1);
      }
      SameBits(x / 2, y / 2);
    }
  }

  lemma {:induction false} OrLaws(x: nat, y: nat, z: nat)
    ensures BitOr(BitOr(x, y), z) == BitOr(x, BitOr(y, z))
    ensures BitOr(x, y) == BitOr(y, x)
    ensures BitOr(x, 0) == x
  {
    forall i: nat
      ensures Bit(BitOr(BitOr(x, y), z), i) == Bit(BitOr(x, BitOr(y, z)), i)
      ensures Bit(BitOr(x, y), i) == Bit(BitOr(y, x), i)
    {
      OrBits(x, y, i);
      OrBits(y, x, i);
      OrBits(y, z, i);
      OrBits(BitOr(x, y), z, i);
      OrBits(x, BitOr(y, z), i);
    }
    SameBits(BitOr(BitOr(x, y), z), BitOr(x, BitOr(y, z)));
    SameBits(BitOr(x, y), BitOr(y, x));
    SameBits(BitOr(x, 0), BitOr(0, x)) by {
      forall i: nat
        ensures Bit(BitOr(x, 0), i) == Bit(BitOr(0, x), i)
      {
        OrBits(x, 0, i);
        OrBits(0, x, i);
      }
    }
  }

  lemma {:induction false} AndLaws(x: nat, y: nat, z: nat)
    ensures BitAnd(BitAnd(x, y), z) == BitAnd(x, BitAnd(y, z))
    ensures BitAnd(x, y) == BitAnd(y, x)
  {
    forall i: nat
      ensures Bit(BitAnd(BitAnd(x, y), z), i) == Bit(BitAnd(x, BitAnd(y, z)), i)
      ensures Bit(BitAnd(x, y), i) == Bit(BitAnd(y, x), i)
    {
      AndBits(x, y, i);
      AndBits(y, x, i);
      AndBits(y, z, i);
      AndBits(BitAnd(x, y), z, i);
      AndBits(x, BitAnd(y, z), i);
    }
    SameBits(BitAnd(BitAnd(x, y), z), BitAnd(x, BitAnd(y, z)));
    SameBits(BitAnd(x, y), BitAnd(y, x));
  }

  /** Words of `n` bits are closed under the operators. */
  lemma {:induction false} WordsStayWords(x: nat, y: nat, n: nat)
    requires x < Pow2(n) && y < Pow2(n)
    ensures BitOr(x, y) < Pow2(n)
    ensures BitAnd(x, y) < Pow2(n)
  {
    if n > 0 {
      WordsStayWords(x / 2, y / 2, n - 1);
      UnfoldOr(x, y);
      UnfoldAnd(x, y);
    } else {
      assert x == 0 && y == 0;
    }
  }

  /** All ones is the unit of AND on words of `n` bits. */
  lemma {:induction false} AllOnes(x: nat, n: nat)
    requires x < Pow2(n)
    ensures BitAnd(x, Pow2(n) - 1) == x
  {
    if n > 0 {
      var ones := Pow2(n) - 1;
      assert ones / 2 == Pow2(n - 1) - 1 && ones % 2 == 1;
      AllOnes(x / 2, n - 1);
      UnfoldAnd(x, ones);
    } else {
      assert x == 0;
    }
  }

  lemma {:induction false} HalfOfSplit(a: nat, b: nat, p: nat)
    ensures (a + (2 * p) * b) / 2 == a / 2 + p * b
    ensures (a + (2 * p) * b) % 2 == a % 2
  {
    assert (2 * p) * b == 2 * (p * b);
  }

  /** `b` above the low `n` bits. */
  function Above(a: nat, b: nat, n: nat): nat {
    a + Pow2(n) * b
  }

  lemma {:induction false} BitOfSplit(a: nat, b: nat, n: nat, i: nat)
    requires a < Pow2(n)
    ensures Bit(Above(a, b, n), i) == if i < n then Bit(a, i) else Bit(b, i - n)
  {
    if n > 0 {
      HalfOfSplit(a, b, Pow2(n - 1));
      if i > 0 {
        BitOfSplit(a / 2, b, n - 1, i - 1);
      }
    }
  }

  lemma {:induction false} SplitOr(a: nat, b: nat, c: nat, d: nat, n: nat)
    requires a < Pow2(n) && c < Pow2(n)
    ensures BitOr(Above(a, b, n), Above(c, d, n)) == Above(BitOr(a, c), BitOr(b, d), n)
  {
    hide Pow2, Bit, BitOr, Above;
    var x, y := Above(a, b, n), Above(c, d, n);
    WordsStayWords(a, c, n);
    forall i: nat
      ensures Bit(BitOr(x, y), i) == Bit(Above(BitOr(a, c), BitOr(b, d), n), i)
    {
      BitOfSplit(a, b, n, i);
      BitOfSplit(c, d, n, i);
      BitOfSplit(BitOr(a, c), BitOr(b, d), n, i);
      OrBits(x, y, i);
      if i < n {
        OrBits(a, c, i);
      } else {
        OrBits(b, d, i - n);
      }
    }
    SameBits(BitOr(x, y), Above(BitOr(a, c), BitOr(b, d), n));
  }

  lemma {:induction false} SplitAnd(a: nat, b: nat, c: nat, d: nat, n: nat)
    requires a < Pow2(n) && c < Pow2(n)
    ensures BitAnd(Above(a, b, n), Above(c, d, n)) == Above(BitAnd(a, c), BitAnd(b, d), n)
  {
    hide Pow2, Bit, BitAnd, Above;
    var x, y := Above(a, b, n), Above(c, d, n);
    WordsStayWords(a, c, n);
    forall i: nat
      ensures Bit(BitAnd(x, y), i) == Bit(Above(BitAnd(a, c), BitAnd(b, d), n), i)
    {
      BitOfSplit(a, b, n, i);
      BitOfSplit(c, d, n, i);
      BitOfSplit(BitAnd(a, c), BitAnd(b, d), n, i);
      AndBits(x, y, i);
      if i < n {
        AndBits(a, c, i);
      } else {
        AndBits(b, d, i - n);
      }
    }
    SameBits(BitAnd(x, y), Above(BitAnd(a, c), BitAnd(b, d), n));
  }

  /** The operators work on the low `n` bits and on the rest separately. */
  lemma {:induction false} SplitWord(a: nat, b: nat, c: nat, d: nat, n: nat)
    requires a < Pow2(n) && c < Pow2(n)
    ensures BitOr(a + Pow2(n) * b, c + Pow2(n) * d) == BitOr(a, c) + Pow2(n) * BitOr(b, d)
    ensures BitAnd(a + Pow2(n) * b, c + Pow2(n) * d) == BitAnd(a, c) + Pow2(n) * BitAnd(b, d)
  {
    hide Pow2, BitOr, BitAnd;
    SplitOr(a, b, c, d, n);
    SplitAnd(a, b, c, d, n);
  }

  lemma {:induction false} UnfoldOr(x: nat, y: nat)
    ensures BitOr(x, y) == 2 * BitOr(x / 2, y / 2) + (if x % 2 == 1 || y % 2 == 1 then 1 else 0)
  {
  }

  lemma {:induction false} UnfoldAnd(x: nat, y: nat)
    ensures BitAnd(x, y) == 2 * BitAnd(x / 2, y / 2) + (if x % 2 == 1 && y % 2 == 1 then 1 else 0)
  {
  }

  // ---------------------------------------------------------------- masks as arithmetic

  lemma {:induction false} AndZero(x: nat)
    ensures BitAnd(x, 0) == 0
  {
    AndLaws(x, 0, 0);
  }

  lemma {:induction false} Parts(x: nat, p: nat)
    requires p > 0
    ensures x == x % p + p * (x / p) && x % p < p
  {
  }

  /** A mask of the low `n` bits takes a remainder. */
  lemma {:induction false} LowMask(x: nat, n: nat)
    ensures BitAnd(x, Pow2(n) - 1) == x % Pow2(n)
  {
    hide Pow2, BitAnd;
    var p := Pow2(n);
    Parts(x, p);
    SplitAnd(x % p, x / p, p - 1, 0, n);
    AndZero(x / p);
    AllOnes(x % p, n);
  }

  /** A mask of `m` bits from bit `n` on takes the remainder away. */
  lemma {:induction false} HighMask(x: nat, n: nat, m: nat, mask: nat)
    requires mask == Pow2(n) * (Pow2(m) - 1) && x / Pow2(n) < Pow2(m)
    ensures BitAnd(x, mask) == x - x % Pow2(n)
  {
    hide Pow2, BitAnd;
    var p, low, high := Pow2(n), x % Pow2(n), x / Pow2(n);
    Parts(x, p);
    SplitAnd(low, high, 0, Pow2(m) - 1, n);
    ZeroAnd(low);
    AllOnes(high, m);
  }

  lemma {:induction false} ZeroAnd(x: nat)
    ensures BitAnd(0, x) == 0 && BitAnd(x, 0) == 0
  {
    AndZero(x);
  }

  /** A mask of bit `n` alone tests the parity of a quotient. */
  lemma {:induction false} BitMask(x: nat, n: nat)
    ensures BitAnd(x, Pow2(n)) != 0 <==> x / Pow2(n) % 2 == 1
  {
    hide Pow2, BitAnd;
    var p := Pow2(n);
    Parts(x, p);
    SplitAnd(x % p, x / p, 0, 1, n);
    ZeroAnd(x % p);
    OneMask(x / p);
    Parity(p, BitAnd(x / p, 1));
  }

  lemma {:induction false} OneMask(x: nat)
    ensures BitAnd(x, 1) == x % 2
  {
    UnfoldAnd(x, 1);
    AndZero(x / 2);
  }

  lemma {:induction false} Parity(p: nat, b: nat)
    requires p > 0
    ensures p * b != 0 <==> b != 0
  {
  }
}
