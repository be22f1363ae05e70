/** IEEE 754 words as integers with an exact dyadic meaning, and the bit-level steps of
    glibc-compatibility/musl/pow.c and powf.c: parity test, zero/infinity/nan test, log argument reduction. */
module FloatBits {
  import opened Bits

  /** binary64 and binary32 (section 3.4 of IEEE 754-2008). */
  datatype Format = Double | Single {

    /** Width of the trailing significand field. */
    function MantBits(): nat {
      if Double? then 52 else 23
    }

    /** 2 to the width of the trailing significand field: the weight of the lowest exponent bit. */
    function Unit(): nat {
      if Double? then 0x10_0000_0000_0000 else 0x80_0000
    }

    /** The largest value of the exponent field, that of infinities and nans. */
    function TopField(): nat {
      if Double? then 0x7ff else 0xff
    }

    function Bias(): nat {
      if Double? then 0x3ff else 0x7f
    }

    /** Half the number of words: the weight of the sign bit. */
    function SignBit(): nat {
      if Double? then 0x8000_0000_0000_0000 else 0x8000_0000
    }

    /** The number of words. */
    function Words(): nat {
      2 * SignBit()
    }

    predicate Word(w: int) {
      0 <= w < Words()
    }

    function Infinity(): nat {
      TopField() * Unit()
    }
  }

  lemma {:induction false} FormatFits(f: Format)
    ensures f.Unit() == Pow2(f.MantBits())
    ensures f.SignBit() == (f.TopField() + 1) * f.Unit() && f.Bias() == f.TopField() / 2 && f.Bias() % 2 == 1
  {
    PowersUsed();
  }

  lemma {:induction false} PowersUsed()
    ensures Pow2(23) == 0x80_0000 && Pow2(52) == 0x10_0000_0000_0000
  {
    assert Pow2(8) == 256;
    Pow2Adds(8, 8);
    assert Pow2(7) == 128;
    Pow2Adds(16, 7);
    assert Pow2(6) == 64;
    Pow2Adds(23, 23);
    Pow2Adds(46, 6);
  }

  function Negative(f: Format, w: nat): bool {
    w >= f.SignBit()
  }

  function Magnitude(f: Format, w: nat): nat {
    w % f.SignBit()
  }

  function Field(f: Format, w: nat): nat {
    Magnitude(f, w) / f.Unit()
  }

  function Mantissa(f: Format, w: nat): nat {
    w % f.Unit()
  }

  predicate Finite(f: Format, w: int) {
    f.Word(w) && Field(f, w) < f.TopField()
  }

  predicate FiniteNonZero(f: Format, w: int) {
    Finite(f, w) && Magnitude(f, w) != 0
  }

  /** num * 2^exp */
  datatype Dyadic = Dyadic(num: int, exp: int) {
    function Times2To(k: int): Dyadic {
      Dyadic(num, exp + k)
    }

    predicate Same(other: Dyadic) {
      if exp >= other.exp then num * Pow2(exp - other.exp) == other.num
      else num == other.num * Pow2(other.exp - exp)
    }

    predicate IsInt(n: int) {
      Same(Dyadic(n, 0))
    }
  }

  /** The significand as an integer, the leading bit being implicit unless the number is subnormal. */
  function Significand(f: Format, w: nat): nat {
    if Field(f, w) == 0 then Mantissa(f, w) else f.Unit() + Mantissa(f, w)
  }

  /** The power of two that goes with it. */
  function Scale(f: Format, w: nat): int {
    (if Field(f, w) == 0 then 1 else Field(f, w)) - f.Bias() - f.MantBits()
  }

  /** The number a finite word denotes. */
  function Value(f: Format, w: nat): Dyadic {
    Dyadic(if Negative(f, w) then 0 - Significand(f, w) else Significand(f, w), Scale(f, w))
  }

  // ---------------------------------------------------------------- checkint

  /** checkint of pow.c and powf.c; the masks are remainders and the bit test a quotient's parity. */
  function CheckInt(f: Format, iy: nat): int {
    var e := Field(f, iy);
    if e < f.Bias() then 0
    else if e > f.Bias() + f.MantBits() then 2
    else
      var weight := Pow2(f.Bias() + f.MantBits() - e);
      if iy % weight != 0 then 0
      else if iy / weight % 2 == 1 then 1
      else 2
  }

  lemma {:induction false} Pow2Grows(m: nat, n: nat)
    requires m <= n
    ensures Pow2(m) <= Pow2(n)
  {
    if m < n {
      Pow2Grows(m, n - 1);
    }
  }

  lemma {:induction false} Cancel(g: nat, a: int, b: int)
    requires g > 0 && a * g == b * g
    ensures a == b
  {
    assert (a - b) * g == 0;
    if a != b {
      NoSmallMultiple(g, a - b);
    }
  }

  lemma {:induction false} NoSmallMultiple(g: nat, n: int)
    requires n != 0
    ensures n * g >= g || n * g + g <= 0
  {
    if n > 0 {
      assert n * g == g + (n - 1) * g;
    } else {
      assert n * g + g == -((-n - 1) * g);
    }
  }

  /** A dyadic is at most one integer. */
  lemma {:induction false} OneInteger(d: Dyadic, m: int, n: int)
    requires d.IsInt(m) && d.IsInt(n)
    ensures m == n
  {
    if d.exp < 0 {
      Cancel(Pow2(-d.exp), m, n);
    }
  }

  /** The verdict on a number: no integer, or the parity of the integer it is. */
  ghost predicate Verdict(d: Dyadic, code: int) {
    if code == 0 then forall n: int :: !d.IsInt(n)
    else exists n: int :: d.IsInt(n) && n % 2 == (if code == 1 then 1 else 0)
  }

  lemma {:induction false} OneVerdict(d: Dyadic, a: int, b: int)
    requires Verdict(d, a) && Verdict(d, b) && 0 <= a <= 2 && 0 <= b <= 2
    ensures a == b
  {
    if a != 0 && b != 0 {
      var m: int :| d.IsInt(m) && m % 2 == (if a == 1 then 1 else 0);
      var n: int :| d.IsInt(n) && n % 2 == (if b == 1 then 1 else 0);
      OneInteger(d, m, n);
    }
  }

  /** The sign does not matter. */
  lemma {:induction false} VerdictOfNegation(d: Dyadic, code: int)
    requires Verdict(d, code)
    ensures Verdict(Dyadic(-d.num, d.exp), code)
  {
    var e := Dyadic(-d.num, d.exp);
    forall n: int
      ensures e.IsInt(n) == d.IsInt(-n)
    {
      if d.exp >= 0 {
        assert (-d.num) * Pow2(d.exp) == -(d.num * Pow2(d.exp));
      } else {
        assert (-n) * Pow2(-d.exp) == -(n * Pow2(-d.exp));
      }
    }
    if code != 0 {
      var n: int :| d.IsInt(n) && n % 2 == (if code == 1 then 1 else 0);
      assert e.IsInt(-n);
    }
  }

  /** Less than one in size. */
  lemma {:induction false} SmallIsNoInteger(size: nat, j: nat)
    requires 0 < size < Pow2(j)
    ensures Verdict(Dyadic(size, 0 - j), 0)
  {
    var d := Dyadic(size, 0 - j);
    forall n: int
      ensures !d.IsInt(n)
    {
      if n != 0 {
        NoSmallMultiple(Pow2(j), n);
      }
    }
  }

  lemma {:induction false} ScaledIsEven(size: nat, k: nat)
    requires k > 0
    ensures Verdict(Dyadic(size, k), 2)
  {
    var n := size * Pow2(k);
    assert n == 2 * (size * Pow2(k - 1));
    assert Dyadic(size, k).IsInt(n);
  }

  lemma {:induction false} VerdictByDivision(size: nat, j: nat)
    ensures Verdict(Dyadic(size, 0 - j), if size % Pow2(j) != 0 then 0 else if size / Pow2(j) % 2 == 1 then 1 else 2)
  {
    var d, g := Dyadic(size, 0 - j), Pow2(j);
    if size % g != 0 {
      forall n: int
        ensures !d.IsInt(n)
      {
        if size == n * g {
          RemainderOfMultiple(n, g);
        }
      }
    } else {
      assert size == size / g * g;
      assert d.IsInt(size / g);
    }
  }

  lemma {:induction false} RemainderOfMultiple(n: int, g: nat)
    requires g > 0
    ensures (n * g) % g == 0
  {
    QuotientOfSum(0, n, g);
  }

  lemma {:induction false} QuotientOfSum(a: int, n: int, g: nat)
    requires g > 0
    ensures (a + n * g) / g == a / g + n && (a + n * g) % g == a % g
  {
    var x := a + n * g;
    assert x == (a / g + n) * g + a % g;
    var d := x / g - (a / g + n);
    assert d * g == a % g - x % g;
    if d != 0 {
      NoSmallMultiple(g, d);
    }
  }

  /** Below a power of two dividing the unit, word and significand agree; the quotients' parity too if what lies
      above is even. */
  lemma {:induction false} AgreeBelow(w: nat, unit: nat, g: nat, h: nat)
    requires g > 0 && h > 0 && unit == h * g && ((w / unit - 1) * h) % 2 == 0
    ensures var size := unit + w % unit;
      w % g == size % g && w / g % 2 == size / g % 2
  {
    var size, c := unit + w % unit, w / unit - 1;
    assert w == size + c * unit;
    ProductsAssociate(c, h, g);
    QuotientOfSum(size, c * h, g);
    HalvesApart(size / g, c * h);
  }

  lemma {:induction false} ProductsAssociate(a: int, b: int, c: int)
    ensures a * (b * c) == (a * b) * c
  {
  }

  lemma {:induction false} HalvesApart(a: int, b: int)
    requires b % 2 == 0
    ensures (a + b) % 2 == a % 2
  {
  }

  lemma {:induction false} EvenProduct(c: int, k: nat)
    requires k > 0
    ensures (c * Pow2(k)) % 2 == 0
  {
    ProductsAssociate(c, 2, Pow2(k - 1));
    ProductsAssociate(2, c, Pow2(k - 1));
    TwiceIsEven(c * Pow2(k - 1));
  }

  lemma {:induction false} TwiceIsEven(n: int)
    ensures (2 * n) % 2 == 0
  {
  }

  /** Inside the significand, word and significand agree in the bits that matter: for exponent zero the bit test
      reaches the lowest exponent bit, which is set because the bias is odd. */
  lemma {:induction false} WordActsAsSignificand(f: Format, w: nat, j: nat)
    requires f.Word(w) && Field(f, w) == f.Bias() + f.MantBits() - j && j <= f.MantBits()
    ensures var size := f.Unit() + Mantissa(f, w);
      && w % Pow2(j) == size % Pow2(j)
      && w / Pow2(j) % 2 == size / Pow2(j) % 2
  {
    hide Field, Format.Bias, Format.MantBits, Format.Unit;
    var k := f.MantBits() - j;
    FormatFits(f);
    Pow2Adds(k, j);
    if k > 0 {
      EvenProduct(w / f.Unit() - 1, k);
    } else {
      LowestExponentBit(f, w);
    }
    AgreeBelow(w, f.Unit(), Pow2(j), Pow2(k));
  }

  lemma {:induction false} LowestExponentBit(f: Format, w: nat)
    requires f.Word(w)
    ensures (w / f.Unit()) % 2 == Field(f, w) % 2
  {
    FormatFits(f);
    var sign := if Negative(f, w) then f.TopField() + 1 else 0;
    assert w == Magnitude(f, w) + sign * f.Unit();
    QuotientOfSum(Magnitude(f, w), sign, f.Unit());
    HalvesApart(Field(f, w), sign);
  }

  lemma {:induction false} BelowOne(f: Format, w: nat)
    requires FiniteNonZero(f, w) && Field(f, w) < f.Bias()
    ensures 0 < Significand(f, w) < 2 * f.Unit() && 0 - Scale(f, w) >= f.MantBits() + 1
  {
  }

  lemma {:induction false} SignificandVerdict(f: Format, w: nat)
    requires FiniteNonZero(f, w)
    ensures Verdict(Dyadic(Significand(f, w), Scale(f, w)), CheckInt(f, w))
  {
    hide Verdict, Mantissa, FiniteNonZero, Format.Bias, Format.MantBits, Format.Unit, Field;
    var scale := Scale(f, w);
    FormatFits(f);
    if Field(f, w) < f.Bias() {
      BelowOne(f, w);
      Pow2Grows(f.MantBits() + 1, 0 - scale);
      SmallIsNoInteger(Significand(f, w), 0 - scale);
    } else if Field(f, w) > f.Bias() + f.MantBits() {
      ScaledIsEven(Significand(f, w), scale);
    } else {
      IsWord(f, w);
      WordActsAsSignificand(f, w, 0 - scale);
      VerdictByDivision(Significand(f, w), 0 - scale);
    }
  }

  lemma {:induction false} IsWord(f: Format, w: nat)
    requires FiniteNonZero(f, w)
    ensures f.Word(w) && f.Bias() > 0
  {
  }

  /** 0, 1 or 2 exactly when the number is not an integer, an odd integer or an even integer. */
  lemma {:induction false} CheckIntIsParity(f: Format, w: nat)
    requires FiniteNonZero(f, w)
    ensures Verdict(Value(f, w), CheckInt(f, w))
    ensures forall code :: 0 <= code <= 2 && Verdict(Value(f, w), code) ==> code == CheckInt(f, w)
  {
    hide Verdict, Significand, Scale, FiniteNonZero, CheckInt;
    SignificandVerdict(f, w);
    VerdictOfNegation(Dyadic(Significand(f, w), Scale(f, w)), CheckInt(f, w));
    ThreeCodes(f, w);
    forall code | 0 <= code <= 2 && Verdict(Value(f, w), code)
      ensures code == CheckInt(f, w)
    {
      OneVerdict(Value(f, w), code, CheckInt(f, w));
    }
  }

  lemma {:induction false} ThreeCodes(f: Format, w: nat)
    ensures 0 <= CheckInt(f, w) <= 2
  {
  }

  // ---------------------------------------------------------------- log argument reduction

  /** Where the interval of one binade around 1 starts: [Off, 2 * Off) as numbers. */
  function Off(f: Format): nat {
    if f.Double? then 0x3fe6_9555_0000_0000 else 0x3f33_0000
  }

  /** Entries of the logarithm table. */
  function Subintervals(f: Format): nat {
    if f.Double? then 128 else 16
  }

  /** Two's complement. */
  function Signed(f: Format, w: nat): int {
    if w >= f.SignBit() then w - f.Words() else w
  }

  function Wrap(f: Format, n: int): (w: nat)
    ensures f.Word(w)
  {
    n % f.Words()
  }

  datatype Reduced = Reduced(i: nat, k: int, iz: nat)

  /** The first lines of log_inline and log2_inline, in wrapping arithmetic. */
  function LogReduce(f: Format, ix: nat): Reduced {
    var tmp := Wrap(f, ix - Off(f));
    Reduced(tmp / (f.Unit() / Subintervals(f)) % Subintervals(f),
            Signed(f, tmp) / f.Unit(),
            Wrap(f, ix - (tmp - tmp % f.Unit())))
  }

  /** The number meant by a positive word whose exponent field may have gone negative. */
  function Extended(f: Format, s: int): Dyadic {
    Dyadic(f.Unit() + s % f.Unit(), s / f.Unit() - f.Bias() - f.MantBits())
  }

  /** Positive words: normal numbers, and subnormal ones renormalized to an exponent field down to 1 - MantBits. */
  predicate Prepared(f: Format, s: int) {
    (1 - f.MantBits()) * f.Unit() <= s < f.Infinity()
  }

  /** Wrap(f, n) differs from `n` by some number `q` of full turns. */
  lemma {:induction false} WrapShift(f: Format, n: int, c: int) returns (q: int)
    ensures n == Wrap(f, n) + q * f.Words() && Wrap(f, n + c * f.Words()) == Wrap(f, n)
  {
    q := n / f.Words();
    QuotientOfSum(n, c, f.Words());
  }

  lemma {:induction false} WrapSum(f: Format, a: int, b: int)
    ensures Wrap(f, Wrap(f, a) + b) == Wrap(f, a + b)
    ensures Wrap(f, a - Wrap(f, b)) == Wrap(f, a - b)
  {
    hide Wrap, Format.Words;
    var qa := WrapShift(f, a, 0);
    var qb := WrapShift(f, b, 0);
    var _ := WrapShift(f, Wrap(f, a) + b, qa);
    var _ := WrapShift(f, a - b, qb);
  }

  lemma {:induction false} SignedUndoesWrap(f: Format, n: int)
    requires 0 - f.SignBit() <= n < f.SignBit()
    ensures Signed(f, Wrap(f, n)) == n
  {
  }

  /** Wrapping leaves everything below the unit alone. */
  lemma {:induction false} WrapKeepsLow(f: Format, n: int)
    ensures Wrap(f, n) % f.Unit() == n % f.Unit()
  {
    var m, q := f.Words(), n / f.Words();
    FormatFits(f);
    assert n == Wrap(f, n) + q * m;
    var c := 2 * (f.TopField() + 1);
    assert q * m == (q * c) * f.Unit() by {
      ProductsAssociate(q, c, f.Unit());
    }
    QuotientOfSum(Wrap(f, n), q * c, f.Unit());
  }

  /** tmp in the reduction: how far x is from the start of the interval, in words. */
  lemma {:induction false} Distance(f: Format, s: int)
    requires Prepared(f, s)
    ensures var tmp, d := Wrap(f, Wrap(f, s) - Off(f)), s - Off(f);
      tmp == Wrap(f, d) && Signed(f, tmp) == d && tmp % f.Unit() == d % f.Unit()
  {
    WrapSum(f, s, 0 - Off(f));
    SignedUndoesWrap(f, s - Off(f));
    WrapKeepsLow(f, s - Off(f));
  }

  lemma {:induction false} ReducedWord(f: Format, s: int)
    requires Prepared(f, s)
    ensures var r, d := LogReduce(f, Wrap(f, s)), s - Off(f);
      r.k == d / f.Unit() && r.iz == Off(f) + d % f.Unit() && s == r.iz + r.k * f.Unit()
  {
    hide Wrap, Signed, Off;
    var tmp, d := Wrap(f, Wrap(f, s) - Off(f)), s - Off(f);
    Distance(f, s);
    var low := d % f.Unit();
    WrapSum(f, s, 0);
    WrapSum(f, s, 0 - (tmp - low));
    WrapSum(f, s + low, d);
    assert s - (tmp - low) == (s + low) - tmp;
    assert Wrap(f, (s + low) - tmp) == Wrap(f, Off(f) + low);
    SmallWord(f, low);
  }

  lemma {:induction false} SmallWord(f: Format, low: nat)
    requires low < f.Unit()
    ensures Wrap(f, Off(f) + low) == Off(f) + low
  {
  }

  /** The table index: the unit is Subintervals(f) steps wide. */
  lemma {:induction false} IndexOfStep(f: Format, t: nat)
    ensures var step, n := f.Unit() / Subintervals(f), Subintervals(f);
      n * step == f.Unit() && t / step % n == t % f.Unit() / step < n
  {
    match f
    case Double => DoubleIndex(t);
    case Single => SingleIndex(t);
  }

  lemma {:induction false} DoubleIndex(t: nat)
    ensures t / 0x2000_0000_0000 % 128 == t % 0x10_0000_0000_0000 / 0x2000_0000_0000 < 128
  {
    var q, r := t / 0x10_0000_0000_0000, t % 0x10_0000_0000_0000;
    QuotientOfSum(r, q * 128, 0x2000_0000_0000);
    QuotientOfSum(r / 0x2000_0000_0000, q, 128);
  }

  lemma {:induction false} SingleIndex(t: nat)
    ensures t / 0x8_0000 % 16 == t % 0x80_0000 / 0x8_0000 < 16
  {
    var q, r := t / 0x80_0000, t % 0x80_0000;
    QuotientOfSum(r, q * 16, 0x8_0000);
    QuotientOfSum(r / 0x8_0000, q, 16);
  }

  lemma {:induction false} IndexIsSubinterval(f: Format, s: int)
    requires Prepared(f, s)
    ensures var r, d, step := LogReduce(f, Wrap(f, s)), s - Off(f), f.Unit() / Subintervals(f);
      r.i == d % f.Unit() / step < Subintervals(f)
  {
    hide Wrap, Signed, Off;
    var tmp, step := Wrap(f, Wrap(f, s) - Off(f)), f.Unit() / Subintervals(f);
    Distance(f, s);
    IndexOfStep(f, tmp);
  }

  /** The reduction is exact: x == 2^k * z with z in the binade from Off on, and i is the subinterval z is in. */
  lemma {:induction false} ReductionIsExact(f: Format, s: int)
    requires Prepared(f, s)
    ensures var r := LogReduce(f, Wrap(f, s));
      && Off(f) <= r.iz < Off(f) + f.Unit() && Finite(f, r.iz) && !Negative(f, r.iz)
      && Extended(f, s) == Value(f, r.iz).Times2To(r.k)
      && r.i < Subintervals(f)
      && Off(f) + r.i * (f.Unit() / Subintervals(f)) <= r.iz < Off(f) + (r.i + 1) * (f.Unit() / Subintervals(f))
  {
    hide LogReduce, Wrap, Signed, Value, Finite, Negative;
    var r := LogReduce(f, Wrap(f, s));
    ReducedWord(f, s);
    IndexIsSubinterval(f, s);
    StepsAreDisjoint(f, (s - Off(f)) % f.Unit());
    ExtendedWord(f, r.iz);
    QuotientOfSum(r.iz, r.k, f.Unit());
  }

  lemma {:induction false} StepsAreDisjoint(f: Format, low: nat)
    ensures var step := f.Unit() / Subintervals(f);
      low / step * step <= low < (low / step + 1) * step
  {
  }

  lemma {:induction false} ExtendedWord(f: Format, w: nat)
    requires f.Unit() <= w < f.Infinity()
    ensures Extended(f, w) == Value(f, w) && Finite(f, w) && !Negative(f, w)
  {
  }

  // ---------------------------------------------------------------- renormalizing a subnormal

  /** The position of the leading bit. */
  function LeadingBit(m: nat): (h: nat)
    requires m > 0
    ensures Pow2(h) <= m < Pow2(h + 1)
  {
    if m == 1 then 0 else LeadingBit(m / 2) + 1
  }

  predicate Subnormal(f: Format, w: int) {
    f.Word(w) && Field(f, w) == 0 && Mantissa(f, w) != 0
  }

  /** How far the leading bit has to move. */
  function Lift(f: Format, w: nat): (g: nat)
    requires Subnormal(f, w)
    ensures 0 < g <= f.MantBits() && f.Unit() <= Mantissa(f, w) * Pow2(g) < 2 * f.Unit()
  {
    LeadingBitFits(f, w);
    f.MantBits() - LeadingBit(Mantissa(f, w))
  }

  /** The word with these fields. */
  function Assemble(f: Format, negative: bool, field: nat, mantissa: nat): (w: nat)
    requires field <= f.TopField() && mantissa < f.Unit()
    ensures f.Word(w) && Negative(f, w) == negative && Field(f, w) == field && Mantissa(f, w) == mantissa
  {
    WordOfParts(f, negative, field, mantissa);
    (if negative then f.SignBit() else 0) + field * f.Unit() + mantissa
  }

  lemma {:induction false} WordOfParts(f: Format, negative: bool, field: nat, mantissa: nat)
    requires field <= f.TopField() && mantissa < f.Unit()
    ensures var w := (if negative then f.SignBit() else 0) + field * f.Unit() + mantissa;
      f.Word(w) && Negative(f, w) == negative && Field(f, w) == field && Mantissa(f, w) == mantissa
  {
  }

  /** The word of x * 2^MantBits for a subnormal x: the product is exact, with the leading bit of the significand
      moved into place. */
  function ScaledUp(f: Format, w: nat): nat
    requires Subnormal(f, w)
  {
    Assemble(f, Negative(f, w), f.MantBits() + 1 - Lift(f, w), Mantissa(f, w) * Pow2(Lift(f, w)) - f.Unit())
  }

  lemma {:induction false} LeadingBitFits(f: Format, w: nat)
    requires Subnormal(f, w)
    ensures var m := Mantissa(f, w);
      var h := LeadingBit(m);
      h < f.MantBits() && f.Unit() <= m * Pow2(f.MantBits() - h) < 2 * f.Unit()
  {
    var m := Mantissa(f, w);
    var h := LeadingBit(m);
    FormatFits(f);
    if h >= f.MantBits() {
      Pow2Grows(f.MantBits(), h);
    }
    Pow2Adds(h, f.MantBits() - h);
    ScaleBounds(Pow2(h), m, Pow2(f.MantBits() - h));
  }

  lemma {:induction false} ScaleBounds(lo: nat, m: nat, g: nat)
    requires lo <= m < 2 * lo && g > 0
    ensures lo * g <= m * g < 2 * (lo * g)
  {
    assert (m - lo) * g >= 0;
    assert (2 * lo - m) * g >= g by {
      NoSmallMultiple(g, 2 * lo - m);
    }
  }

  /** The scaled word denotes exactly 2^MantBits times the number. */
  lemma {:induction false} ScaledUpIsExact(f: Format, w: nat)
    requires Subnormal(f, w)
    ensures Value(f, w).Times2To(f.MantBits()).Same(Value(f, ScaledUp(f, w)))
  {
    hide Assemble, Lift, Mantissa, Field, Negative, Format.Unit, Format.MantBits, Format.Bias;
    var g, up := Lift(f, w), ScaledUp(f, w);
    assert Significand(f, up) == Mantissa(f, w) * Pow2(g);
    assert Scale(f, up) == 1 - f.Bias() - g && Scale(f, w) + f.MantBits() == 1 - f.Bias();
    assert (0 - Mantissa(f, w)) * Pow2(g) == 0 - Mantissa(f, w) * Pow2(g);
  }

  // ---------------------------------------------------------------- the way into the core of pow and powf

  /** ix &= 0x7ff... where x is negative; asuint64(x * 0x1p52) without its sign, less 52 exponents, where x is
      subnormal: a positive word or a number below zero. */
  function Prepare(f: Format, ix: nat): int
    requires FiniteNonZero(f, ix)
  {
    if Field(f, ix) == 0 then Magnitude(f, ScaledUp(f, ix)) - f.MantBits() * f.Unit() else Magnitude(f, ix)
  }

  function Size(d: Dyadic): Dyadic {
    Dyadic(if d.num < 0 then -d.num else d.num, d.exp)
  }

  lemma {:induction false} MagnitudeOfNormal(f: Format, w: nat)
    requires Finite(f, w) && Field(f, w) > 0
    ensures f.Unit() <= Magnitude(f, w) < f.Infinity()
    ensures Extended(f, Magnitude(f, w)) == Dyadic(Significand(f, w), Scale(f, w)) == Size(Value(f, w))
  {
    var m := Magnitude(f, w);
    ExtendedWord(f, m);
    assert w == m + (w / f.SignBit()) * f.SignBit();
    FormatFits(f);
    ProductsAssociate(w / f.SignBit(), f.TopField() + 1, f.Unit());
    QuotientOfSum(m, (w / f.SignBit()) * (f.TopField() + 1), f.Unit());
  }

  lemma {:induction false} SizesAreSame(a: Dyadic, b: Dyadic)
    requires a.Same(b)
    ensures Size(a).Same(Size(b))
  {
    if a.exp >= b.exp {
      SignOfProduct(a.num, Pow2(a.exp - b.exp));
    } else {
      SignOfProduct(b.num, Pow2(b.exp - a.exp));
    }
  }

  lemma {:induction false} SignOfProduct(a: int, g: nat)
    requires g > 0
    ensures (a * g < 0 <==> a < 0) && (0 - a) * g == 0 - a * g
  {
    if a != 0 {
      NoSmallMultiple(g, a);
    }
    if a < 0 {
      assert 0 - a * g == (0 - a) * g > 0;
    }
  }

  lemma {:induction false} SubnormalIsSmall(f: Format, w: nat)
    requires FiniteNonZero(f, w) && Field(f, w) == 0
    ensures Subnormal(f, w)
  {
  }

  lemma {:induction false} ScaledUpIsNormal(f: Format, w: nat)
    requires Subnormal(f, w)
    ensures Finite(f, ScaledUp(f, w)) && Field(f, ScaledUp(f, w)) > 0
  {
  }

  lemma {:induction false} PrepareSubnormal(f: Format, ix: nat)
    requires Subnormal(f, ix) && FiniteNonZero(f, ix)
    ensures Prepared(f, Prepare(f, ix)) && Size(Value(f, ix)).Same(Extended(f, Prepare(f, ix)))
  {
    hide Value, Significand, Scale, Negative, ScaledUp, Finite, Mantissa, Magnitude, Format.Bias;
    var up := ScaledUp(f, ix);
    ScaledUpIsExact(f, ix);
    ScaledUpIsNormal(f, ix);
    SizesAreSame(Value(f, ix).Times2To(f.MantBits()), Value(f, up));
    MagnitudeOfNormal(f, up);
    QuotientOfSum(Magnitude(f, up), 0 - f.MantBits(), f.Unit());
  }

  /** What is handed to the reduction means |x|. */
  lemma {:induction false} PrepareIsExact(f: Format, ix: nat)
    requires FiniteNonZero(f, ix)
    ensures Prepared(f, Prepare(f, ix)) && Size(Value(f, ix)).Same(Extended(f, Prepare(f, ix)))
  {
    hide Value, Significand, Scale, Negative, Extended, Dyadic.Same;
    if Field(f, ix) == 0 {
      SubnormalIsSmall(f, ix);
      PrepareSubnormal(f, ix);
    } else {
      MagnitudeOfNormal(f, ix);
      SameAsItself(Extended(f, Magnitude(f, ix)));
    }
  }

  lemma {:induction false} SameAsItself(d: Dyadic)
    ensures d.Same(d)
  {
  }
}
