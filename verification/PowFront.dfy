/** The decisions pow and powf take before any floating-point arithmetic (glibc-compatibility/musl/pow.c,
    glibc-compatibility/musl/powf.c), and the argument reduction they lead to. */
module PowFront {
  import opened Bits
  import opened FloatBits

  /** How a call ends before the logarithm. */
  datatype Early =
    | One                                         // 1
    | Sum                                         // x + y, one of them a nan
    | Zero
    | SquareOfY                                   // y * y, an infinity
    | PowerOfX(negated: bool, inverted: bool)     // x * x or its inverse, negated for an odd power
    | Invalid
    | NearOne(above: bool)                        // 1 + y or 1 - y
    | Huge
    | Tiny

  /** The core takes |x|, as prepared for the reduction, and the sign of the result. */
  datatype Front = Done(how: Early) | Core(ix: nat, signBias: bool)

  /** Unsigned 32-bit subtraction, as in `topx - 0x001`. */
  function Minus32(a: nat, b: nat): nat {
    (a - b) % 0x1_0000_0000
  }

  function Twice(f: Format, i: nat): nat {
    Wrap(f, 2 * i)
  }

  /** zeroinfnan */
  predicate ZeroInfNan(f: Format, i: nat) {
    Wrap(f, Twice(f, i) - 1) >= 2 * f.Infinity() - 1
  }

  /** The tests in front of the special cases; only pow looks at the size of y. */
  predicate XIsSpecial(f: Format, ix: nat) {
    if f.Double? then Minus32(ix / f.Unit(), 0x001) >= 0x7ff - 0x001
    else Minus32(ix, 0x0080_0000) >= 0x7f80_0000 - 0x0080_0000
  }

  predicate YIsExtreme(f: Format, iy: nat) {
    f.Double? && Minus32(Field(f, iy), 0x3be) >= 0x43e - 0x3be
  }

  function OneWord(f: Format): nat {
    f.Bias() * f.Unit()
  }

  /** y is zero, infinite or nan. */
  function SpecialY(f: Format, ix: nat, iy: nat): Early {
    if Twice(f, iy) == 0 then One
    else if ix == OneWord(f) then One
    else if Twice(f, ix) > 2 * f.Infinity() || Twice(f, iy) > 2 * f.Infinity() then Sum
    else if Twice(f, ix) == 2 * OneWord(f) then One
    else if (Twice(f, ix) < 2 * OneWord(f)) == !Negative(f, iy) then Zero
    else SquareOfY
  }

  /** pow and powf up to the call of log_inline or log2_inline. */
  function Entry(f: Format, ix: nat, iy: nat): Front
    requires f.Word(ix) && f.Word(iy)
  {
    if XIsSpecial(f, ix) || YIsExtreme(f, iy) || (f.Single? && ZeroInfNan(f, iy)) then
      if ZeroInfNan(f, iy) then Done(SpecialY(f, ix, iy))
      else if ZeroInfNan(f, ix) then
        Done(PowerOfX(Negative(f, ix) && CheckInt(f, iy) == 1, Negative(f, iy)))
      else if Negative(f, ix) && CheckInt(f, iy) == 0 then Done(Invalid)
      else
        var signBias := Negative(f, ix) && CheckInt(f, iy) == 1;
        var x := Magnitude(f, ix);
        if YIsExtreme(f, iy) then
          if x == OneWord(f) then Done(One)
          else if Field(f, iy) < 0x3be then Done(NearOne(x > OneWord(f)))
          else Done(if (x > OneWord(f)) == !Negative(f, iy) then Huge else Tiny)
        else
          SpecialsAre(f, ix);
          Core(Wrap(f, Prepare(f, ix)), signBias)
    else Core(ix, false)
  }

  lemma {:induction false} DoubleDropsSign(f: Format, i: nat)
    requires f.Word(i)
    ensures Twice(f, i) == 2 * Magnitude(f, i)
  {
  }

  lemma {:induction false} FiniteByMagnitude(f: Format, i: nat)
    requires f.Word(i)
    ensures Finite(f, i) <==> Magnitude(f, i) < f.Infinity()
  {
  }

  /** The wrapping test finds exactly zeros, infinities and nans. */
  lemma {:induction false} SpecialsAre(f: Format, i: nat)
    requires f.Word(i)
    ensures ZeroInfNan(f, i) <==> !FiniteNonZero(f, i)
  {
    hide Magnitude, Twice, Finite;
    DoubleDropsSign(f, i);
    FiniteByMagnitude(f, i);
    MagnitudeBelowSign(f, i);
  }

  lemma {:induction false} MagnitudeBelowSign(f: Format, i: nat)
    ensures Magnitude(f, i) < f.SignBit()
  {
  }

  /** An odd number is neither extremely large nor extremely small: where the code leaves the sign out, there is
      none. */
  lemma {:induction false} ExtremeIsNotOdd(f: Format, iy: nat)
    requires f.Word(iy) && YIsExtreme(f, iy)
    ensures CheckInt(f, iy) != 1
  {
  }

  lemma {:induction false} ModerateY(f: Format, iy: nat)
    requires f.Double? && f.Word(iy) && !YIsExtreme(f, iy)
    ensures FiniteNonZero(f, iy)
  {
  }

  /** x is not special in the sense of the first test exactly when it is a positive normal number. */
  lemma {:induction false} OrdinaryX(f: Format, ix: nat)
    requires f.Word(ix)
    ensures !XIsSpecial(f, ix) <==> Finite(f, ix) && !Negative(f, ix) && Field(f, ix) > 0
  {
  }

  ghost predicate Odd(d: Dyadic) {
    exists n: int :: d.IsInt(n) && n % 2 == 1
  }

  ghost predicate Integral(d: Dyadic) {
    exists n: int :: d.IsInt(n)
  }

  lemma {:induction false} CodesMean(f: Format, iy: nat)
    requires FiniteNonZero(f, iy)
    ensures CheckInt(f, iy) == 1 <==> Odd(Value(f, iy))
    ensures CheckInt(f, iy) == 0 <==> !Integral(Value(f, iy))
  {
    CheckIntIsParity(f, iy);
    var d := Value(f, iy);
    if Odd(d) {
      var n: int :| d.IsInt(n) && n % 2 == 1;
      assert Verdict(d, 1);
    }
    if !Integral(d) {
      assert Verdict(d, 0);
    }
  }

  /** |num * 2^exp| < 2^k */
  predicate BelowPow2(d: Dyadic, k: int) {
    if d.exp >= k then d.num == 0 else Size(d).num < Pow2(k - d.exp)
  }

  /** Below 2^-65, or not below 2^63. */
  predicate Extreme(d: Dyadic) {
    BelowPow2(d, -65) || !BelowPow2(d, 63)
  }

  /** The exponent field tells the size. */
  lemma {:induction false} SizeByField(f: Format, w: nat, k: int)
    requires Finite(f, w) && k >= 1 - f.Bias()
    ensures Field(f, w) < f.Bias() + k <==> BelowPow2(Value(f, w), k)
  {
    hide Magnitude, Field, Mantissa, Finite, Format.Unit, Format.MantBits, Format.Bias;
    FormatFits(f);
    WordAndFields(f, w);
    var d, m := Value(f, w), f.MantBits();
    if Field(f, w) >= f.Bias() + k {
      if d.exp < k {
        Pow2Grows(k - d.exp, m);
      }
    } else if Field(f, w) > 0 {
      Pow2Grows(m + 1, k - d.exp);
    } else {
      Pow2Grows(m, k - d.exp);
    }
  }

  /** The test of pow on the exponent field of y. */
  lemma {:induction false} ExtremeMeans(f: Format, iy: nat)
    requires f.Word(iy) && FiniteNonZero(f, iy)
    ensures YIsExtreme(f, iy) <==> f.Double? && Extreme(Value(f, iy))
    ensures f.Double? ==> (Field(f, iy) < 0x3be <==> BelowPow2(Value(f, iy), -65))
  {
    hide BelowPow2, Value, Field;
    if f.Double? {
      SizeByField(f, iy, -65);
      SizeByField(f, iy, 63);
    }
  }

  /** Every pair of words: the core is entered only with non-zero finite numbers, gets |x|, and the result is
      negative exactly when x is negative and y odd; the call is invalid exactly when x is negative and y is not an
      integer. Only pow keeps some of these from the core, those with |y| below 2^-65 or from 2^63. The branch that
      ignores the sign is never taken with an odd y. */
  lemma {:induction false} EntryIsRight(f: Format, ix: nat, iy: nat)
    requires f.Word(ix) && f.Word(iy)
    ensures var e, ordinary := Entry(f, ix, iy), FiniteNonZero(f, ix) && FiniteNonZero(f, iy);
      && (e.Core? ==> ordinary && e.ix == Wrap(f, Prepare(f, ix))
                      && (e.signBias <==> Negative(f, ix) && Odd(Value(f, iy)))
                      && (Negative(f, ix) ==> Integral(Value(f, iy))))
      && (e == Done(Invalid) <==> ordinary && Negative(f, ix) && !Integral(Value(f, iy)))
      && (ordinary && !(f.Double? && Extreme(Value(f, iy))) && e != Done(Invalid) ==> e.Core?)
      && (e.Core? && f.Double? ==> !Extreme(Value(f, iy)))
      && (e.Done? && (e.how.Huge? || e.how.Tiny? || e.how.NearOne?) ==> ordinary && !Odd(Value(f, iy)))
  {
    hide XIsSpecial, YIsExtreme, ZeroInfNan, FiniteNonZero, Prepare, CheckInt, Value, Odd, Integral, Field,
         Magnitude, Twice, Wrap, Extreme;
    SpecialsAre(f, ix);
    SpecialsAre(f, iy);
    OrdinaryX(f, ix);
    if FiniteNonZero(f, iy) {
      CodesMean(f, iy);
      ExtremeMeans(f, iy);
    }
    if YIsExtreme(f, iy) {
      ExtremeIsNotOdd(f, iy);
    } else if f.Double? {
      ModerateY(f, iy);
    }
    if !XIsSpecial(f, ix) {
      OrdinaryIsPrepared(f, ix);
    }
  }

  lemma {:induction false} OrdinaryIsPrepared(f: Format, ix: nat)
    requires f.Word(ix) && !XIsSpecial(f, ix)
    ensures FiniteNonZero(f, ix) && !Negative(f, ix) && Wrap(f, Prepare(f, ix)) == ix
  {
    OrdinaryX(f, ix);
    PositiveNormal(f, ix);
  }

  lemma {:induction false} PositiveNormal(f: Format, ix: nat)
    requires Finite(f, ix) && !Negative(f, ix) && Field(f, ix) > 0
    ensures FiniteNonZero(f, ix) && Wrap(f, Prepare(f, ix)) == ix
  {
  }

  /** From the call to the reduced argument: the core computes with |x| == 2^k * z exactly, z in the binade the table
      covers. */
  lemma {:induction false} CoreReducesExactly(f: Format, ix: nat, iy: nat)
    requires f.Word(ix) && f.Word(iy) && Entry(f, ix, iy).Core?
    ensures var r := LogReduce(f, Entry(f, ix, iy).ix);
      var off, n := if f.Double? then 0x3fe6_9555_0000_0000 else 0x3f33_0000, if f.Double? then 128 else 16;
      && FiniteNonZero(f, ix)
      && Size(Value(f, ix)).Same(Value(f, r.iz).Times2To(r.k))
      && off <= r.iz < off + f.Unit()
      && r.i < n
      && off + r.i * (f.Unit() / n) <= r.iz < off + (r.i + 1) * (f.Unit() / n)
  {
    hide Entry, LogReduce, FiniteNonZero, Value, Prepare, Wrap;
    EntryIsRight(f, ix, iy);
    PrepareIsExact(f, ix);
    ReductionIsExact(f, Prepare(f, ix));
  }

  // ---------------------------------------------------------------- special values

  predicate IsNan(f: Format, w: nat) {
    Magnitude(f, w) > f.Infinity()
  }

  predicate IsInfinite(f: Format, w: nat) {
    Magnitude(f, w) == f.Infinity()
  }

  predicate IsZero(f: Format, w: nat) {
    Magnitude(f, w) == 0
  }

  /** |num * 2^exp| < 1 */
  predicate SmallerThanOne(d: Dyadic) {
    if d.exp >= 0 then d.num == 0 else Size(d).num < Pow2(-d.exp)
  }

  predicate IsOne(d: Dyadic) {
    Size(d).IsInt(1)
  }

  lemma {:induction false} SizeBelowOne(d: Dyadic, m: nat)
    requires Size(d).num < Pow2(m + 1) && d.exp <= 0 - m - 1
    ensures SmallerThanOne(d) && !IsOne(d)
  {
    Pow2Grows(m + 1, -d.exp);
  }

  lemma {:induction false} SizeFromOne(d: Dyadic, m: nat)
    requires Size(d).num >= Pow2(m) > 1 && d.exp >= 0 - m
    ensures !SmallerThanOne(d) && (IsOne(d) <==> d.exp == 0 - m && Size(d).num == Pow2(m))
  {
    if d.exp < 0 {
      Pow2Grows(-d.exp, m);
      if d.exp > 0 - m {
        Pow2Grows(-d.exp + 1, m);
      }
    } else {
      assert Size(d).num * Pow2(d.exp) >= Size(d).num;
    }
  }

  /** Comparing words with the word of 1 compares the numbers. */
  lemma {:induction false} ComparedWithOne(f: Format, w: nat)
    requires Finite(f, w)
    ensures Magnitude(f, w) < OneWord(f) <==> SmallerThanOne(Value(f, w))
    ensures Magnitude(f, w) == OneWord(f) <==> IsOne(Value(f, w))
  {
    hide Magnitude, Field, Mantissa, SmallerThanOne, IsOne, Finite, Format.Unit, Format.MantBits, Format.Bias;
    FormatFits(f);
    WordAndFields(f, w);
    if Field(f, w) < f.Bias() {
      SizeBelowOne(Value(f, w), f.MantBits());
    } else {
      SizeFromOne(Value(f, w), f.MantBits());
    }
  }

  lemma {:induction false} WordAndFields(f: Format, w: nat)
    requires Finite(f, w)
    ensures Mantissa(f, w) < f.Unit() && f.Unit() > 1 && f.Bias() > 1
    ensures Magnitude(f, w) < OneWord(f) <==> Field(f, w) < f.Bias()
    ensures Magnitude(f, w) == OneWord(f) <==> Field(f, w) == f.Bias() && Mantissa(f, w) == 0
  {
  }

  /** |x| is less than one, or more than one; an infinity is more. */
  predicate LessThanOne(f: Format, w: nat) {
    Finite(f, w) && SmallerThanOne(Value(f, w))
  }

  predicate MoreThanOne(f: Format, w: nat) {
    IsInfinite(f, w) || (Finite(f, w) && !SmallerThanOne(Value(f, w)) && !IsOne(Value(f, w)))
  }

  /** Every call with a zero, an infinity or a nan. */
  lemma {:induction false} SpecialValues(f: Format, ix: nat, iy: nat)
    requires f.Word(ix) && f.Word(iy) && !(FiniteNonZero(f, ix) && FiniteNonZero(f, iy))
    ensures var one := IsZero(f, iy) || ix == OneWord(f) || (IsInfinite(f, iy) && Finite(f, ix) && IsOne(Value(f, ix)));
      var nan := IsNan(f, ix) || IsNan(f, iy);
      var how := Entry(f, ix, iy);
      && (one ==> how == Done(One))
      && (!one && nan && !FiniteNonZero(f, iy) ==> how == Done(Sum))
      && (IsInfinite(f, iy) && LessThanOne(f, ix) ==> how == Done(if Negative(f, iy) then SquareOfY else Zero))
      && (IsInfinite(f, iy) && MoreThanOne(f, ix) ==> how == Done(if Negative(f, iy) then Zero else SquareOfY))
      && (FiniteNonZero(f, iy) ==>
            how == Done(PowerOfX(Negative(f, ix) && Odd(Value(f, iy)), Negative(f, iy))))
  {
    hide XIsSpecial, YIsExtreme, ZeroInfNan, FiniteNonZero, Prepare, CheckInt, Value, Odd, Field, Magnitude, Twice,
         Wrap, SmallerThanOne, IsOne, Finite;
    SpecialsAre(f, ix);
    SpecialsAre(f, iy);
    OrdinaryX(f, ix);
    DoubleDropsSign(f, ix);
    DoubleDropsSign(f, iy);
    FiniteByMagnitude(f, ix);
    FiniteByMagnitude(f, iy);
    KindsOf(f, iy);
    KindsOf(f, ix);
    if f.Double? && !YIsExtreme(f, iy) {
      ModerateY(f, iy);
    }
    if Finite(f, ix) {
      ComparedWithOne(f, ix);
    }
    if FiniteNonZero(f, iy) {
      CodesMean(f, iy);
    }
  }

  /** Powers so large or small that only the size of x and the sign of y decide: 1 for |x| = 1, close to 1 for tiny y,
      else an overflow exactly when |x| and y lie on the same side of 1 and 0. */
  lemma {:induction false} ExtremePowers(f: Format, ix: nat, iy: nat)
    requires f.Word(ix) && f.Word(iy) && FiniteNonZero(f, ix) && FiniteNonZero(f, iy)
    requires f.Double? && Extreme(Value(f, iy)) && (!Negative(f, ix) || Integral(Value(f, iy)))
    ensures var how, tiny := Entry(f, ix, iy), BelowPow2(Value(f, iy), -65);
      && (IsOne(Value(f, ix)) ==> how == Done(One))
      && (MoreThanOne(f, ix) ==>
            how == Done(if tiny then NearOne(true) else if Negative(f, iy) then Tiny else Huge))
      && (LessThanOne(f, ix) ==>
            how == Done(if tiny then NearOne(false) else if Negative(f, iy) then Huge else Tiny))
  {
    hide XIsSpecial, YIsExtreme, ZeroInfNan, Prepare, CheckInt, Value, Integral, Field, Magnitude, Twice, Wrap,
         SmallerThanOne, IsOne, Finite, Extreme, BelowPow2;
    SpecialsAre(f, ix);
    SpecialsAre(f, iy);
    FiniteByMagnitude(f, ix);
    CodesMean(f, iy);
    ExtremeMeans(f, iy);
    ComparedWithOne(f, ix);
  }

  lemma {:induction false} KindOfOne(f: Format)
    ensures 0 < OneWord(f) < f.Infinity() && Magnitude(f, OneWord(f)) == OneWord(f) && FiniteNonZero(f, OneWord(f))
  {
  }

  lemma {:induction false} KindsOf(f: Format, w: nat)
    ensures FiniteNonZero(f, w) <==> Finite(f, w) && Magnitude(f, w) != 0
    ensures !XIsSpecial(f, w) && f.Word(w) ==> FiniteNonZero(f, w)
    ensures w == OneWord(f) ==> Magnitude(f, w) == OneWord(f) && FiniteNonZero(f, w)
    ensures 0 < OneWord(f) < f.Infinity()
  {
    hide XIsSpecial, Finite, Magnitude, OneWord;
    KindOfOne(f);
    if !XIsSpecial(f, w) && f.Word(w) {
      OrdinaryIsPrepared(f, w);
    }
  }
}
