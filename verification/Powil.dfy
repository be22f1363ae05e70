/** powil of glibc-compatibility/musl/powl.c over exact real numbers: integer powers by repeated squaring. */
module Powil {

  const MAXLOGL := 11356.523406294143949492
  const MINLOGL := -11399.4985314888605586758
  const LOGE2L := 0.69314718055994530941723

  /** x * ... * x, n times */
  function Power(x: real, n: nat): real {
    if n == 0 then 1.0 else x * Power(x, n - 1)
  }

  lemma {:induction false} PowerIsPositive(x: real, n: nat)
    requires x > 0.0
    ensures Power(x, n) > 0.0
  {
    if n > 0 {
      PowerIsPositive(x, n - 1);
    }
  }

  /** x to any integer power. */
  function IntPower(x: real, n: int): real
    requires x > 0.0
  {
    PowerIsPositive(x, if n >= 0 then n else -n);
    if n >= 0 then Power(x, n) else 1.0 / Power(x, -n)
  }

  lemma {:induction false} PowerOfSquare(x: real, n: nat)
    ensures Power(x * x, n) == Power(x, 2 * n)
  {
    if n > 0 {
      PowerOfSquare(x, n - 1);
      assert Power(x, 2 * n) == x * (x * Power(x, 2 * (n - 1)));
    }
  }

  lemma {:induction false} PowerOfProduct(x: real, y: real, n: nat)
    ensures Power(x * y, n) == Power(x, n) * Power(y, n)
  {
    if n > 0 {
      PowerOfProduct(x, y, n - 1);
      Rearranged(x, y, Power(x, n - 1), Power(y, n - 1));
    }
  }

  lemma {:induction false} Rearranged(a: real, b: real, c: real, d: real)
    ensures (a * b) * (c * d) == (a * c) * (b * d)
  {
  }

  lemma {:induction false} PowerOfOne(n: nat)
    ensures Power(1.0, n) == 1.0
  {
    if n > 0 {
      PowerOfOne(n - 1);
    }
  }

  /** Inverting the base inverts the power. */
  lemma {:induction false} PowerOfInverse(x: real, n: int)
    requires x > 0.0
    ensures 1.0 / x > 0.0 && IntPower(1.0 / x, n) == IntPower(x, -n)
  {
    var y := 1.0 / x;
    var k := if n >= 0 then n else -n;
    PowerOfProduct(x, y, k);
    PowerOfOne(k);
    PowerIsPositive(x, k);
    PowerIsPositive(y, k);
    assert x * y == 1.0;
    assert Power(x, k) * Power(y, k) == 1.0;
    Inverse(Power(x, k), Power(y, k));
  }

  lemma {:induction false} Inverse(a: real, b: real)
    requires a > 0.0 && b > 0.0 && a * b == 1.0
    ensures b == 1.0 / a && a == 1.0 / b
  {
  }

  datatype Answer = Overflow | Underflow | Value(y: real)

  /** A rough logarithm to base 2 of the number with this significand and exponent. */
  function RoughLog(m: real, lx: int): real
    requires m > 0.0
  {
    var s := (m - 0.70710678118654752) / (m + 0.70710678118654752);
    2.9142135623730950 * s - 0.5 + lx as real
  }

  /** The rough logarithm of the answer that the guards look at. */
  function Estimate(m: real, lx: int, n: nat, nn: int): real
    requires m > 0.0
  {
    var e := (lx - 1) * n;
    if e == 0 || e > 64 || e < -64 then RoughLog(m, lx) * nn as real * LOGE2L
    else LOGE2L * e as real
  }

  // ---------------------------------------------------------------- the guards

  /** A little above 0. */
  const SLACK := 0.000000000000000001

  /** x lies from 2^(lx - 1) to 2^lx, so its power lies between two powers of two: these are their exponents. The upper
      edge of x is taken a trifle too high. */
  function LeastExponent(lx: int, nn: int): real {
    (if nn > 0 then lx as real - 1.0 else lx as real + SLACK) * nn as real
  }

  function GreatestExponent(lx: int, nn: int): real {
    (if nn > 0 then lx as real + SLACK else lx as real - 1.0) * nn as real
  }

  lemma {:induction false} QuotientBetween(a: real, d: real, lo: real, hi: real)
    requires d > 0.0 && lo * d <= a <= hi * d
    ensures lo <= a / d <= hi
  {
    var q := a / d;
    assert q * d == a;
    assert q < lo ==> q * d < lo * d;
    assert q > hi ==> q * d > hi * d;
  }

  lemma {:induction false} Larger(a: real, b: real, k: real)
    requires a <= b && k >= 0.0
    ensures a * k <= b * k
  {
  }

  /** The rough logarithm lies between those of the edges of the binade. */
  lemma {:induction false} RoughLogBetween(m: real, lx: int)
    requires 0.5 <= m < 1.0
    ensures lx as real - 1.0 <= RoughLog(m, lx) <= lx as real + SLACK
  {
    var c, k := 0.70710678118654752, 2.9142135623730950;
    var a, d := m - c, m + c;
    assert k * (a / d) == (k * a) / d;
    QuotientBetween(k * a, d, -0.5, 0.5 + SLACK);
  }

  lemma {:induction false} Between(lo: real, t: real, hi: real, nn: int)
    requires lo <= t <= hi
    ensures nn > 0 ==> lo * nn as real <= t * nn as real <= hi * nn as real
    ensures nn < 0 ==> hi * nn as real <= t * nn as real <= lo * nn as real
  {
    if nn > 0 {
      Larger(lo, t, nn as real);
      Larger(t, hi, nn as real);
    } else {
      Larger(lo, t, -(nn as real));
      Larger(t, hi, -(nn as real));
    }
  }

  /** Where the estimate does not look at the significand, the power is moderate. */
  lemma {:induction false} ModeratePower(lx: int, n: nat, nn: int)
    requires n == (if nn < 0 then 0 - nn else nn) && nn != 0 && -64 <= (lx - 1) * n <= 64
    ensures LeastExponent(lx, nn) <= 64.0 && GreatestExponent(lx, nn) >= -64.0
  {
    var e := (lx - 1) * n;
    assert (lx as real - 1.0) * n as real == e as real;
    if nn > 0 {
      assert GreatestExponent(lx, nn) == e as real + (1.0 + SLACK) * n as real;
    } else {
      assert LeastExponent(lx, nn) == -(e as real) - (1.0 + SLACK) * n as real;
    }
  }

  /** Multiplied by the power and by the logarithm of two. */
  lemma {:induction false} Scaled(lo: real, t: real, hi: real, nn: int)
    requires lo <= t <= hi
    ensures nn > 0 ==> lo * nn as real * LOGE2L <= t * nn as real * LOGE2L <= hi * nn as real * LOGE2L
    ensures nn < 0 ==> hi * nn as real * LOGE2L <= t * nn as real * LOGE2L <= lo * nn as real * LOGE2L
  {
    Between(lo, t, hi, nn);
    ScaledInOrder(lo * nn as real, t * nn as real, hi * nn as real);
    ScaledInOrder(hi * nn as real, t * nn as real, lo * nn as real);
  }

  lemma {:induction false} ScaledInOrder(a: real, b: real, c: real)
    ensures a <= b <= c ==> a * LOGE2L <= b * LOGE2L <= c * LOGE2L
  {
  }

  /** Otherwise the estimate lies between the edges of the rough logarithm, taken to the power. */
  lemma {:induction false} EstimateBetween(m: real, lx: int, n: nat, nn: int, lo: real, hi: real)
    requires m > 0.0 && lo <= RoughLog(m, lx) <= hi
    requires var e := (lx - 1) * n; e == 0 || e > 64 || e < -64
    ensures nn > 0 ==> lo * nn as real * LOGE2L <= Estimate(m, lx, n, nn) <= hi * nn as real * LOGE2L
    ensures nn < 0 ==> hi * nn as real * LOGE2L <= Estimate(m, lx, n, nn) <= lo * nn as real * LOGE2L
  {
    hide RoughLog;
    Scaled(lo, RoughLog(m, lx), hi, nn);
  }

  lemma {:induction false} Compared(least: real, s: real, greatest: real)
    requires least * LOGE2L <= s <= greatest * LOGE2L
    ensures (least >= 16384.000001 ==> s > MAXLOGL) && (s > MAXLOGL ==> greatest >= 16384.0)
    ensures (greatest <= -16446.000001 ==> s < MINLOGL) && (s < MINLOGL ==> least <= -16445.999999)
  {
  }

  /** The guards of powil for numbers as frexp splits them: a power that is above 2^16384 for every number of x's binade
      overflows, and one that overflows is above that for the greatest of them; a power below 2^-16446 for every such
      number underflows, and one that underflows is so for the least of them. */
  lemma {:induction false} GuardsAreRight(m: real, lx: int, nn: int)
    requires 0.5 <= m < 1.0 && nn != 0
    ensures var s := Estimate(m, lx, if nn < 0 then 0 - nn else nn, nn);
      && (LeastExponent(lx, nn) >= 16384.000001 ==> s > MAXLOGL)
      && (s > MAXLOGL ==> GreatestExponent(lx, nn) >= 16384.0)
      && (GreatestExponent(lx, nn) <= -16446.000001 ==> s < MINLOGL)
      && (s < MINLOGL ==> LeastExponent(lx, nn) <= -16445.999999)
  {
    var n := if nn < 0 then 0 - nn else nn;
    var e := (lx - 1) * n;
    if e == 0 || e > 64 || e < -64 {
      hide Estimate, RoughLog;
      RoughLogBetween(m, lx);
      EstimateBetween(m, lx, n, nn, lx as real - 1.0, lx as real + SLACK);
      Compared(LeastExponent(lx, nn), Estimate(m, lx, n, nn), GreatestExponent(lx, nn));
    } else {
      ModeratePower(lx, n, nn);
    }
  }

  /** One turn of the loop: what is already multiplied in, times what the remaining bits stand for. */
  lemma {:induction false} Turn(y: real, ww: real, n: nat)
    requires n > 0
    ensures var sq := ww * ww;
      y * Power(ww, 2 * n) == (if n % 2 == 1 then y * sq else y) * Power(sq, 2 * (n / 2))
  {
    var sq := ww * ww;
    PowerOfSquare(ww, n);
    if n % 2 == 1 {
      assert Power(sq, n) == sq * Power(sq, 2 * (n / 2));
      Associates(y, sq, Power(sq, 2 * (n / 2)));
    }
  }

  lemma {:induction false} Associates(a: real, b: real, c: real)
    ensures a * (b * c) == (a * b) * c
  {
  }

  lemma {:induction false} StartsWith(x: real, n: nat)
    ensures (if n % 2 == 1 then x else 1.0) * Power(x, 2 * (n / 2)) == Power(x, n)
  {
  }

  lemma {:induction false} NothingLeft(y: real, ww: real)
    ensures y * Power(ww, 2 * 0) == y
  {
  }

  /** The loop of powil over the bits of the power. */
  method BySquaring(x: real, n0: nat) returns (y: real)
    ensures y == Power(x, n0)
  {
    hide Power;
    var n := n0;
    y := if n % 2 == 1 then x else 1.0;
    var ww := x;
    StartsWith(x, n);
    n := n / 2;
    while n != 0
      invariant y * Power(ww, 2 * n) == Power(x, n0)
      decreases n
    {
      Turn(y, ww, n);
      ww := ww * ww;
      if n % 2 == 1 {
        y := y * ww;
      }
      n := n / 2;
    }
    NothingLeft(y, ww);
  }

  lemma {:induction false} SignedPower(x: real, n: nat)
    requires x > 0.0
    ensures IntPower(x, n) == Power(x, n) > 0.0 && IntPower(x, 0 - n) == 1.0 / Power(x, n)
  {
    PowerIsPositive(x, n);
  }

  /** powil: for every positive x and every integer power, unless a guard ends the call, the result is exactly x to that
      power, also when the branch for tiny answers has inverted x and flipped the sign. `frexp` gives the parts of x. */
  method Powil(x0: real, nn: int, frexp: real -> (real, int)) returns (r: Answer)
    requires x0 > 0.0 && frexp(x0).0 > 0.0
    ensures r.Value? ==> r.y == IntPower(x0, nn)
    ensures var s := Estimate(frexp(x0).0, frexp(x0).1, if nn < 0 then 0 - nn else nn, nn);
      && (r.Value? <==> nn == 0 || MINLOGL <= s <= MAXLOGL)
      && (r.Overflow? <==> nn != 0 && s > MAXLOGL) && (r.Underflow? <==> nn != 0 && s < MINLOGL)
  {
    hide Power, Estimate, IntPower;
    if nn == 0 {
      SignedPower(x0, 0);
      PowerOfOne(0);
      return Value(1.0);
    }
    var sign, n := 1, nn;
    if nn < 0 {
      sign, n := -1, 0 - nn;
    }
    var (m, lx) := frexp(x0);
    var s := Estimate(m, lx, n, nn);
    if s > MAXLOGL {
      return Overflow;
    }
    if s < MINLOGL {
      return Underflow;
    }
    var x := x0;
    if s < -MAXLOGL + 2.0 {
      PowerOfInverse(x, n);
      PowerOfInverse(x, 0 - n);
      x := 1.0 / x;
      sign := -sign;
    }
    var y := BySquaring(x, n);
    SignedPower(x, n);
    if sign < 0 {
      y := 1.0 / y;
    }
    return Value(y);
  }
}
