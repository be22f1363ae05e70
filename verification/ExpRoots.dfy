/** How near the table of glibc-compatibility/musl/exp2f_data.c is to the powers of two it stands for. */
module ExpRoots {
  import opened Bits
  import opened FloatBits
  import opened ExpScale
  import opened ExpTable

  // ---------------------------------------------------------------- squares of entries are entries

  /** Entry `i` in units of 2^-52. */
  function Units(i: nat): int
    requires i < 32
  {
    TABLE[i] + i * 0x8000_0000_0000 - 0x3fe * UNIT
  }

  lemma {:induction false} ValueFromOneToTwo(w: nat)
    requires FromOneToTwo(w)
    ensures Value(Double, w) == Dyadic(w - 0x3fe * UNIT, -52) && UNIT <= w - 0x3fe * UNIT
  {
  }

  lemma {:induction false} UnitsAreValue(i: nat)
    requires i < 32
    ensures Value(Double, EntryWord(i)) == Dyadic(Units(i), -52) && UNIT <= Units(i)
  {
    hide Units, EntryWord, Value, FromOneToTwo;
    UnitsOfWord(i);
    TableFits(i);
    ValueFromOneToTwo(EntryWord(i));
  }

  lemma {:induction false} UnitsOfWord(i: nat)
    requires i < 32
    ensures Units(i) == EntryWord(i) - 0x3fe * UNIT
  {
  }

  /** 2^(i/32) squared is 2^(j/32), or twice that. */
  function Twofold(i: nat): nat {
    if i < 16 then 2 * i else 2 * i - 32
  }

  function Carry(i: nat): nat {
    if i < 16 then 1 else 2
  }

  const HALF := 0x400_0000

  /** The square of m less n * 2^52, without its last digits; m is cut into two halves to keep numbers small. */
  predicate SquareFits(m: int, n: int) {
    var a, b := m / HALF, m % HALF;
    -4 * HALF < 2 * a * b - (n - a * a) * HALF <= 3 * HALF
  }

  lemma {:induction false} SquaresFrom0(i: nat)
    requires 0 <= i < 4
    ensures SquareFits(Units(i), Units(Twofold(i)))
  {
  }

  lemma {:induction false} SquaresFrom4(i: nat)
    requires 4 <= i < 8
    ensures SquareFits(Units(i), Units(Twofold(i)))
  {
  }

  lemma {:induction false} SquaresFrom8(i: nat)
    requires 8 <= i < 12
    ensures SquareFits(Units(i), Units(Twofold(i)))
  {
  }

  lemma {:induction false} SquaresFrom12(i: nat)
    requires 12 <= i < 16
    ensures SquareFits(Units(i), Units(Twofold(i)))
  {
  }

  lemma {:induction false} SquaresFrom16(i: nat)
    requires 16 <= i < 20
    ensures SquareFits(Units(i), 2 * Units(Twofold(i)))
  {
  }

  lemma {:induction false} SquaresFrom20(i: nat)
    requires 20 <= i < 24
    ensures SquareFits(Units(i), 2 * Units(Twofold(i)))
  {
  }

  lemma {:induction false} SquaresFrom24(i: nat)
    requires 24 <= i < 28
    ensures SquareFits(Units(i), 2 * Units(Twofold(i)))
  {
  }

  lemma {:induction false} SquaresFrom28(i: nat)
    requires 28 <= i < 32
    ensures SquareFits(Units(i), 2 * Units(Twofold(i)))
  {
  }

  lemma {:induction false} AllSquaresFit(i: nat)
    requires i < 32
    ensures SquareFits(Units(i), Carry(i) * Units(Twofold(i)))
  {
    hide SquareFits, Units;
    if i < 4 {
      SquaresFrom0(i);
    } else if i < 8 {
      SquaresFrom4(i);
    } else if i < 12 {
      SquaresFrom8(i);
    } else if i < 16 {
      SquaresFrom12(i);
    } else if i < 20 {
      SquaresFrom16(i);
    } else if i < 24 {
      SquaresFrom20(i);
    } else if i < 28 {
      SquaresFrom24(i);
    } else {
      SquaresFrom28(i);
    }
  }

  lemma {:induction false} SquareOfHalves(a: int, b: int, h: int)
    ensures (a * h + b) * (a * h + b) == a * a * (h * h) + 2 * a * b * h + b * b
  {
    var x := a * h;
    assert (x + b) * (x + b) == x * x + 2 * x * b + b * b;
    assert x * x == a * a * (h * h);
    assert 2 * x * b == 2 * a * b * h;
  }

  lemma {:induction false} HalvesBound(s: int, c: int, n: int, h: int, bb: int)
    requires h > 0 && 0 <= bb < h * h && -4 * h < c - (n - s) * h <= 3 * h
    ensures -4 * (h * h) < s * (h * h) + c * h + bb - n * (h * h) < 4 * (h * h)
  {
    var e := c - (n - s) * h;
    assert s * (h * h) + c * h - n * (h * h) == e * h;
    assert -4 * h + 1 <= e;
    Times(h, -4 * h, e);
    Times(h, e, 3 * h);
    Times(h, 1, e + 4 * h);
    assert (e + 4 * h) * h == e * h + 4 * (h * h);
  }

  lemma {:induction false} Times(h: int, a: int, b: int)
    requires h >= 0 && a <= b
    ensures a * h <= b * h
  {
  }

  /** The square of every entry is the entry of twice its index, up to 4 units of the last place. */
  lemma {:induction false} SquaresAgree(i: nat)
    requires i < 32
    ensures var n := Carry(i) * Units(Twofold(i));
      -4 * UNIT < Units(i) * Units(i) - n * UNIT < 4 * UNIT
  {
    hide Units, Carry;
    AllSquaresFit(i);
    var m, n := Units(i), Carry(i) * Units(Twofold(i));
    var a, b := m / HALF, m % HALF;
    SquareOfHalves(a, b, HALF);
    SquareBelow(b, HALF);
    HalvesBound(a * a, 2 * a * b, n, HALF, b * b);
    assert HALF * HALF == UNIT && m == a * HALF + b;
  }

  lemma {:induction false} SquareBelow(b: int, h: int)
    requires 0 <= b < h
    ensures 0 <= b * b < h * h
  {
    Times(b, b, h);
    Times(h, b, h);
    assert b * h < h * h;
  }

  // ---------------------------------------------------------------- the entries are the roots they stand for

  function Square(x: real): real {
    x * x
  }

  function Power32(x: real): real {
    Square(Square(Square(Square(Square(x)))))
  }

  lemma {:induction false} ProductIsPositive(x: real, y: real)
    requires x > 0.0 && y > 0.0
    ensures x * y > 0.0
  {
  }

  lemma {:induction false} Divided(x: real, y: real)
    requires y != 0.0
    ensures x * y / y == x
  {
  }

  lemma {:induction false} SquareGrows(x: real, y: real)
    requires 0.0 <= x < y
    ensures 0.0 <= Square(x) < Square(y)
  {
    assert Square(y) - Square(x) == (y - x) * (y + x);
    ProductIsPositive(y - x, y + x);
    if x > 0.0 {
      ProductIsPositive(x, x);
    }
  }

  lemma {:induction false} PowerGrows(x: real, y: real)
    requires 0.0 <= x < y
    ensures Power32(x) < Power32(y)
  {
    hide Square;
    SquareGrows(x, y);
    SquareGrows(Square(x), Square(y));
    SquareGrows(Square(Square(x)), Square(Square(y)));
    SquareGrows(Square(Square(Square(x))), Square(Square(Square(y))));
    SquareGrows(Square(Square(Square(Square(x)))), Square(Square(Square(Square(y)))));
  }

  lemma {:induction false} PowerOfOne()
    ensures Power32(1.0) == 1.0
  {
  }

  lemma {:induction false} SquareOfPart(x: real, y: real, c: real, d: real)
    requires x == c * y && d == c * c
    ensures Square(x) == d * Square(y)
  {
    assert (c * y) * (c * y) == (c * c) * (y * y);
  }

  lemma {:induction false} PowerOfHalf(x: real)
    ensures Power32(x / 2.0) == Power32(x) / 4294967296.0
  {
    hide Square;
    var y := x / 2.0;
    SquareOfPart(x, y, 2.0, 4.0);
    SquareOfPart(Square(x), Square(y), 4.0, 16.0);
    SquareOfPart(Square(Square(x)), Square(Square(y)), 16.0, 256.0);
    SquareOfPart(Square(Square(Square(x))), Square(Square(Square(y))), 256.0, 65536.0);
    SquareOfPart(Square(Square(Square(Square(x)))), Square(Square(Square(Square(y)))), 65536.0, 4294967296.0);
  }

  /** t is the 32nd root of 2^i. */
  predicate IsRoot(t: real, i: nat) {
    t > 0.0 && Power32(t) == Pow2(i) as real
  }

  lemma {:induction false} SquareIsPositive(t: real)
    requires t > 0.0
    ensures Square(t) > 0.0
  {
    SquareGrows(0.0, t);
  }

  lemma {:induction false} PowerOfSquare(t: real)
    ensures Power32(Square(t)) == Square(Power32(t))
  {
  }

  lemma {:induction false} SquareOfInt(n: int)
    ensures Square(n as real) == (n * n) as real
  {
  }

  lemma {:induction false} Pow2Is32()
    ensures Pow2(32) == 4294967296 && Pow2(16) == 65536
  {
    assert Pow2(8) == 256;
    Pow2Adds(8, 8);
    Pow2Adds(16, 16);
  }

  lemma {:induction false} PowerOfRootSquared(t: real, i: nat)
    requires IsRoot(t, i)
    ensures Square(t) > 0.0 && Power32(Square(t)) == Pow2(i + i) as real
  {
    hide Square, Power32, Pow2;
    SquareIsPositive(t);
    PowerOfSquare(t);
    SquareOfInt(Pow2(i));
    Pow2Adds(i, i);
  }

  lemma {:induction false} HalfIsRoot(v: real, n: nat)
    requires v > 0.0 && Power32(v) == Pow2(n + 32) as real
    ensures IsRoot(v / 2.0, n)
  {
    hide Power32, Pow2;
    PowerOfHalf(v);
    Pow2Adds(n, 32);
    Pow2Is32();
  }

  /** The square of the root, halved if it is beyond 2. */
  function Folded(t: real, i: nat): real {
    if i < 16 then Square(t) else Square(t) / 2.0
  }

  lemma {:induction false} RootSquared(t: real, i: nat)
    requires i < 32 && IsRoot(t, i)
    ensures IsRoot(Folded(t, i), Twofold(i)) && Square(t) == Carry(i) as real * Folded(t, i)
  {
    hide Square, Power32, Pow2;
    PowerOfRootSquared(t, i);
    if i >= 16 {
      assert i + i == (2 * i - 32) + 32;
      HalfIsRoot(Square(t), 2 * i - 32);
    }
  }

  lemma {:induction false} RootBound(t: real, i: nat)
    requires i < 32 && IsRoot(t, i)
    ensures t >= 1.0 && (i >= 16 ==> t >= 1.4) && (i == 0 ==> t == 1.0)
  {
    hide Power32;
    PowerOfOne();
    if t < 1.0 {
      PowerGrows(t, 1.0);
    }
    if i == 0 && t > 1.0 {
      PowerGrows(1.0, t);
    }
    if i >= 16 && t < 1.4 {
      PowerGrows(t, 1.4);
      PowerBelow();
      Pow2Is32();
      Pow2Adds(16, i - 16);
    }
  }

  lemma {:induction false} PowerBelow()
    ensures Power32(1.4) < 65536.0
  {
  }

  // ---------------------------------------------------------------- how near the entries are

  /** Two positive numbers whose squares are close are close. */
  lemma {:induction false} CloseSquares(m: real, t: real, s: real, c: real, w: real)
    requires w > 0.0 && s > 0.0 && m + t >= s * w && -(c * w) <= m * m - t * t <= c * w
    ensures -c <= s * (m - t) <= c
  {
    var d := m - t;
    assert m * m - t * t == d * (m + t);
    if d >= 0.0 {
      Larger(d, s * w, m + t);
      assert d * (s * w) == (s * d) * w;
      Cancel(s * d, c, w);
    } else {
      Larger(-d, s * w, m + t);
      assert (-d) * (s * w) == (s * (-d)) * w;
      Cancel(s * (-d), c, w);
    }
  }

  lemma {:induction false} Larger(d: real, a: real, b: real)
    requires d >= 0.0 && a <= b
    ensures d * a <= d * b
  {
    if d > 0.0 && a < b {
      ProductIsPositive(d, b - a);
    }
  }

  lemma {:induction false} Cancel(a: real, b: real, w: real)
    requires w > 0.0 && a * w <= b * w
    ensures a <= b
  {
    if a > b {
      ProductIsPositive(a - b, w);
    }
  }

  /** Entries of the upper half. */
  lemma {:induction false} UpperUnits(i: nat)
    requires 16 <= i < 32
    ensures 10 * Units(i) >= 14 * UNIT
  {
  }

  lemma {:induction false} GapOfSquares(p: real, n: real, e: real, t: real, u: real, w: real)
    requires Square(t) == p * u && n == e + u * w
    ensures p * n * w - (t * w) * (t * w) == p * e * w
  {
    assert (t * w) * (t * w) == (t * t) * (w * w);
    assert (p * u) * (w * w) == p * (u * w) * w;
    assert p * (e + u * w) * w == p * e * w + p * (u * w) * w;
  }

  lemma {:induction false} ScaledGap(p: real, e: real, k: real, w: real)
    requires w > 0.0 && p > 0.0 && -5.0 <= e <= 5.0 && k == 5.0 * p
    ensures -(k * w) <= p * e * w <= k * w
  {
    Larger(p, e, 5.0);
    Larger(p, -5.0, e);
    Larger(w, p * e, k);
    Larger(w, -k, p * e);
  }

  lemma {:induction false} AddGaps(a: real, b: real, g: real, d: real, k: real, c: real, w: real)
    requires -4.0 * w <= a - b <= 4.0 * w && b - d == g && -(k * w) <= g <= k * w && c == 4.0 + k
    ensures -(c * w) <= a - d <= c * w
  {
    assert c * w == 4.0 * w + k * w;
  }

  /** One squaring further away from entry 0. */
  lemma {:induction false} SquaresStep(m: real, n: real, e: real, p: real, t: real, u: real, c: real, w: real)
    requires w > 0.0 && p > 0.0 && Square(t) == p * u && c == 4.0 + 5.0 * p
    requires -4.0 * w <= m * m - p * n * w <= 4.0 * w && n == e + u * w && -5.0 <= e <= 5.0
    ensures -(c * w) <= m * m - (t * w) * (t * w) <= c * w
  {
    hide Square;
    var k := 5.0 * p;
    GapOfSquares(p, n, e, t, u, w);
    ScaledGap(p, e, k, w);
    AddGaps(m * m, p * n * w, p * e * w, (t * w) * (t * w), k, c, w);
  }

  lemma {:induction false} CloseStep(m: real, n: real, e: real, p: real, t: real, u: real, s: real, c: real, w: real)
    requires w > 0.0 && p > 0.0 && s > 0.0 && Square(t) == p * u && c == 4.0 + 5.0 * p
    requires -4.0 * w <= m * m - p * n * w <= 4.0 * w && n == e + u * w && -5.0 <= e <= 5.0
    requires m + t * w >= s * w
    ensures -c <= s * (m - t * w) <= c
  {
    hide Square;
    SquaresStep(m, n, e, p, t, u, c, w);
    CloseSquares(m, t * w, s, c, w);
  }

  lemma {:induction false} SquaresAgreeAsReals(i: nat)
    requires i < 32
    ensures var m, n, p, w := Units(i) as real, Units(Twofold(i)) as real, Carry(i) as real, UNIT as real;
      -4.0 * w <= m * m - p * n * w <= 4.0 * w
  {
    hide Units, Carry;
    SquaresAgree(i);
    var m, n, p := Units(i), Units(Twofold(i)), Carry(i);
    ProductOfInts(m, m);
    ProductOfInts(p, n);
    ProductOfInts(p * n, UNIT);
  }

  lemma {:induction false} ProductOfInts(a: int, b: int)
    ensures (a * b) as real == a as real * b as real
  {
  }

  /** Both the entry and the root are at least half of `s`. */
  lemma {:induction false} SumBound(i: nat, t: real) returns (s: real)
    requires i < 32 && IsRoot(t, i)
    ensures s == (if i < 16 then 2.0 else 2.8) && Units(i) as real + t * UNIT as real >= s * UNIT as real
  {
    hide Units, IsRoot;
    RootBound(t, i);
    UnitsAreValue(i);
    s := if i < 16 then 2.0 else 2.8;
    if i >= 16 {
      UpperUnits(i);
    }
  }

  /** Every entry is within 5 units of 2^-52 of the power of two it stands for: of the 32nd root of 2^i. */
  lemma {:induction false} TableIsAccurate(i: nat, t: real)
    requires i < 32 && IsRoot(t, i)
    ensures Value(Double, EntryWord(i)) == Dyadic(Units(i), -52)
    ensures -5.0 <= Units(i) as real - t * UNIT as real <= 5.0
    decreases if i == 0 then 0 else if i % 16 == 0 then 1 else if i % 8 == 0 then 2 else if i % 4 == 0 then 3
              else if i % 2 == 0 then 4 else 5
  {
    hide Units, IsRoot, Square, Folded, Carry, Value, EntryWord;
    UnitsAreValue(i);
    if i == 0 {
      RootBound(t, i);
      FirstEntry();
    } else {
      RootSquared(t, i);
      TableIsAccurate(Twofold(i), Folded(t, i));
      NextEntry(i, t, Folded(t, i));
    }
  }

  lemma {:induction false} NextEntry(i: nat, t: real, u: real)
    requires i < 32 && IsRoot(t, i) && Square(t) == Carry(i) as real * u
    requires -5.0 <= Units(Twofold(i)) as real - u * UNIT as real <= 5.0
    ensures -5.0 <= Units(i) as real - t * UNIT as real <= 5.0
  {
    hide Units, IsRoot, Square;
    SquaresAgreeAsReals(i);
    var s := SumBound(i, t);
    var m, n, p, w := Units(i) as real, Units(Twofold(i)) as real, Carry(i) as real, UNIT as real;
    CloseStep(m, n, n - u * w, p, t, u, s, 4.0 + 5.0 * p, w);
  }

  lemma {:induction false} FirstEntry()
    ensures Units(0) == UNIT
  {
  }
}
