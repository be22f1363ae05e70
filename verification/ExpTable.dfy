/** The table of glibc-compatibility/musl/exp2f_data.c. */
module ExpTable {
  import opened Bits
  import opened FloatBits
  import opened ExpScale

  /** tab of __exp2f_data. */
  const TABLE: seq<nat> := [
    0x3ff0_0000_0000_0000, 0x3fef_d9b0_d315_8574, 0x3fef_b558_6cf9_890f, 0x3fef_9301_d012_5b51,
    0x3fef_72b8_3c7d_517b, 0x3fef_5487_3168_b9aa, 0x3fef_387a_6e75_6238, 0x3fef_1e9d_f51f_dee1,
    0x3fef_06fe_0a31_b715, 0x3fee_f1a7_373a_a9cb, 0x3fee_dea6_4c12_3422, 0x3fee_ce08_6061_892d,
    0x3fee_bfda_d536_2a27, 0x3fee_b42b_569d_4f82, 0x3fee_ab07_dd48_5429, 0x3fee_a47e_b03a_5585,
    0x3fee_a09e_667f_3bcd, 0x3fee_9f75_e8ec_5f74, 0x3fee_a114_73eb_0187, 0x3fee_a589_994c_ce13,
    0x3fee_ace5_422a_a0db, 0x3fee_b737_b0cd_c5e5, 0x3fee_c491_82a3_f090, 0x3fee_d503_b23e_255d,
    0x3fee_e89f_995a_d3ad, 0x3fee_ff76_f2fb_5e47, 0x3fef_199b_dd85_529c, 0x3fef_3720_dcef_9069,
    0x3fef_5818_dcfb_a487, 0x3fef_7c97_337b_9b5f, 0x3fef_a4af_a2a4_90da, 0x3fef_d076_5b6e_4540]

  /** The word an entry stands for, the steps the table left out added again. */
  function EntryWord(i: nat): nat
    requires i < 32
  {
    TABLE[i] + i * Powf.Step()
  }

  /** The entry stands for a word of [1, 2), larger than the one before; entry 0 is 1. */
  predicate EntryFits(i: nat)
    requires i < 32
  {
    FromOneToTwo(EntryWord(i)) && if i == 0 then EntryWord(0) == 0x3ff * UNIT else EntryWord(i - 1) < EntryWord(i)
  }

  lemma {:induction false} TableFits(i: nat)
    requires i < 32
    ensures EntryFits(i)
  {
    if i < 8 {
    } else if i < 16 {
    } else if i < 24 {
    } else {
    }
  }

  /** With this table, the word exp2_inline builds denotes +-2^(k div 32) times entry k mod 32, exactly. */
  lemma {:induction false} PowfScaleIsExact(k: int, negative: bool)
    requires -1022 * 32 <= k < 1024 * 32
    ensures var w := Sbits(Powf, TABLE[Ki(Powf, k) % 32], Ki(Powf, k), negative);
      && Finite(Double, w)
      && Value(Double, w) == WithSign(Value(Double, EntryWord(k % 32)).Times2To(k / 32), negative)
  {
    hide EntryWord, Sbits, Value, Finite, WithSign;
    TableFits(k % 32);
    IndexOfKi(Powf, k);
    EntryIsTableWord(k % 32);
    AssemblyIsExact(Powf, EntryWord(k % 32), k, negative);
  }

  lemma {:induction false} EntryIsTableWord(i: nat)
    requires i < 32
    ensures TABLE[i] == TableWord(Powf, EntryWord(i), i)
  {
  }
}
