/** How exp_inline of pow.c and exp2_inline of powf.c build the word of +-2^(k/N): table word, exponent and sign
    added in wrapping 64-bit arithmetic; and the table of exp2f_data.c. */
module ExpScale {
  import opened Bits
  import opened FloatBits

  datatype Variant = Pow | Powf {

    /** Table entries per binade. */
    function N(): nat {
      if Pow? then 128 else 32
    }

    /** 2^(52 - TABLE_BITS): one step of k in the word. */
    function Step(): nat {
      if Pow? then 0x2000_0000_0000 else 0x8000_0000_0000
    }

    /** The word of 0x1.8p52, or of 0x1.8p52 / 32. */
    function Shift(): nat {
      if Pow? then 0x4338_0000_0000_0000 else 0x42e8_0000_0000_0000
    }

    function SignBias(): nat {
      if Pow? then 0x4_0000 else 0x1_0000
    }
  }

  const UNIT := 0x10_0000_0000_0000

  predicate Reach(k: int) {
    -0x8000_0000 <= k < 0x8000_0000
  }

  /** ki: the word of the rounded multiple after the shift was added. */
  function Ki(v: Variant, k: int): (ki: nat)
    requires Reach(k)
  {
    v.Shift() + k
  }

  /** That word denotes 1.5 * 2^52 + k, for powf in units of 1/32: no rounding is involved. */
  lemma {:induction false} KiDenotes(v: Variant, k: int)
    requires Reach(k)
    ensures Finite(Double, Ki(v, k))
    ensures Value(Double, Ki(v, k)) == Dyadic(0x18_0000_0000_0000 + k, if v.Pow? then 0 else -5)
  {
  }

  /** The table holds the word of 2^(i/N) less i steps. */
  function TableWord(v: Variant, h: nat, i: nat): int {
    h - i * v.Step()
  }

  /** sbits: `t` is the table word at ki % N. */
  function Sbits(v: Variant, t: int, ki: nat, negative: bool): nat {
    var biased := Wrap(Double, ki + if negative then v.SignBias() else 0);
    Wrap(Double, t + Wrap(Double, biased * v.Step()))
  }

  /** A word of the binade [1, 2). */
  predicate FromOneToTwo(h: int) {
    0x3ff * UNIT <= h < 0x400 * UNIT
  }

  lemma {:induction false} IndexOfKi(v: Variant, k: int)
    requires Reach(k)
    ensures Ki(v, k) % v.N() == k % v.N()
  {
    match v
    case Pow => QuotientOfSum(k, 0x4338_0000_0000_0000 / 128, 128);
    case Powf => QuotientOfSum(k, 0x42e8_0000_0000_0000 / 32, 32);
  }

  /** The shift, moved to the exponent, is a number of full turns, and the bias is the sign bit. */
  lemma {:induction false} ShiftVanishes(v: Variant, k: int, negative: bool) returns (turns: int)
    requires Reach(k)
    ensures (Ki(v, k) + if negative then v.SignBias() else 0) * v.Step()
         == turns * Double.Words() + k * v.Step() + if negative then Double.SignBit() else 0
  {
    turns := if v.Pow? then 0x4338 * 0x2000_0000 else 0x42e8 * 0x8000_0000;
  }

  lemma {:induction false} BiasFits(v: Variant, k: int, negative: bool)
    requires Reach(k)
    ensures var biased := Ki(v, k) + if negative then v.SignBias() else 0;
      Wrap(Double, biased) == biased
  {
  }

  lemma {:induction false} StepsOfK(v: Variant, k: int)
    ensures k * v.Step() == k / v.N() * UNIT + k % v.N() * v.Step()
  {
  }

  /** Adding to the word: k / N goes to the exponent, the bias to the sign, the shift disappears. */
  lemma {:induction false} SbitsIs(v: Variant, h: nat, k: int, negative: bool)
    requires Reach(k) && FromOneToTwo(h)
    ensures Sbits(v, TableWord(v, h, k % v.N()), Ki(v, k), negative)
         == Wrap(Double, h + k / v.N() * UNIT + if negative then Double.SignBit() else 0)
  {
    hide Wrap, Ki, Format.Words, Format.SignBit, Variant.Step, Variant.SignBias, TableWord;
    var turns := ShiftVanishes(v, k, negative);
    BiasFits(v, k, negative);
    WordPlusSteps(v, h, k);
    var sign := if negative then Double.SignBit() else 0;
    var w := h + k / v.N() * UNIT + sign;
    var shifted := (Ki(v, k) + if negative then v.SignBias() else 0) * v.Step();
    WrapSum(Double, shifted, TableWord(v, h, k % v.N()));
    var _ := WrapShift(Double, w, turns);
  }

  lemma {:induction false} WordPlusSteps(v: Variant, h: nat, k: int)
    ensures TableWord(v, h, k % v.N()) + k * v.Step() == h + k / v.N() * UNIT
  {
    StepsOfK(v, k);
  }

  /** The number `d` with the sign asked for. */
  function WithSign(d: Dyadic, negative: bool): Dyadic {
    if negative then Dyadic(-d.num, d.exp) else d
  }

  /** A word of the binade moved by `q` binades, with a sign. */
  lemma {:induction false} MovedWord(h: nat, q: int, negative: bool)
    requires FromOneToTwo(h) && -0x3ff < q < 0x400
    ensures var w := Wrap(Double, h + q * UNIT + if negative then Double.SignBit() else 0);
      && Finite(Double, w)
      && Value(Double, w) == WithSign(Value(Double, h).Times2To(q), negative)
  {
    hide Field, Mantissa, Negative, Finite, Wrap;
    var m := h - 0x3ff * UNIT;
    WordOfParts(Double, false, 0x3ff, m);
    WordOfParts(Double, negative, 0x3ff + q, m);
    var w := (if negative then Double.SignBit() else 0) + (0x3ff + q) * Double.Unit() + m;
    assert w == h + q * UNIT + if negative then Double.SignBit() else 0;
    NoWrap(w);
    FieldDecides(w);
  }

  lemma {:induction false} NoWrap(w: nat)
    requires Double.Word(w)
    ensures Wrap(Double, w) == w
  {
  }

  lemma {:induction false} FieldDecides(w: nat)
    requires Double.Word(w)
    ensures Finite(Double, w) <==> Field(Double, w) < 0x7ff
  {
  }

  /** For every k in [-1022 N, 1024 N): the assembled word denotes +-2^(k div N) times the table's number. */
  lemma {:induction false} AssemblyIsExact(v: Variant, h: nat, k: int, negative: bool)
    requires FromOneToTwo(h) && -1022 * v.N() <= k < 1024 * v.N()
    ensures var w := Sbits(v, TableWord(v, h, k % v.N()), Ki(v, k), negative);
      && Finite(Double, w)
      && Value(Double, w) == WithSign(Value(Double, h).Times2To(k / v.N()), negative)
  {
    hide Sbits, TableWord, Ki, Value, Finite, FromOneToTwo, Wrap;
    SbitsIs(v, h, k, negative);
    MovedWord(h, k / v.N(), negative);
  }

  // ---------------------------------------------------------------- specialcase

  /** Whether specialcase takes the branch for positive k: bit 31 of ki. */
  predicate MayOverflow(ki: nat) {
    ki / 0x8000_0000 % 2 == 0
  }

  /** The scale specialcase computes with: the exponent moved back into range. */
  function SpecialScale(sbits: nat, ki: nat): nat {
    if MayOverflow(ki) then Wrap(Double, sbits - 1009 * UNIT) else Wrap(Double, sbits + 1022 * UNIT)
  }

  lemma {:induction false} BranchBySign(k: int)
    requires Reach(k)
    ensures MayOverflow(Ki(Pow, k)) <==> k >= 0
  {
  }

  /** Even after the exponent has wrapped into the sign bit, the shifted word is valid and has the right sign: it
      denotes +-2^(k div N) times the table's number, less the power of two that the code multiplies by at the
      end. */
  lemma {:induction false} SpecialScaleIsExact(h: nat, k: int, negative: bool)
    requires FromOneToTwo(h) && -2044 * Pow.N() <= k < 2033 * Pow.N()
    ensures var w := SpecialScale(Sbits(Pow, TableWord(Pow, h, k % Pow.N()), Ki(Pow, k), negative), Ki(Pow, k));
      && Finite(Double, w)
      && Value(Double, w).Times2To(if k >= 0 then 1009 else -1022)
         == WithSign(Value(Double, h).Times2To(k / Pow.N()), negative)
  {
    hide Sbits, TableWord, Ki, Value, Finite, FromOneToTwo, Wrap, MayOverflow;
    var q, move := k / Pow.N(), if k >= 0 then -1009 else 1022;
    SbitsIs(Pow, h, k, negative);
    BranchBySign(k);
    WrapSum(Double, h + q * UNIT + if negative then Double.SignBit() else 0, move * UNIT);
    MovedWord(h, q + move, negative);
  }
}
