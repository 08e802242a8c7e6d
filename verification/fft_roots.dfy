/** The constants of the transform: five primes, a root of order 2^51 and its inverse for each, and the
    inverses of the primes modulo each other. That they are what they are said to be is computed here. */
module FftRoots {
  import opened Limbs

  const NB_MODS: nat := 5
  const NTT_PROOT_2EXP: nat := 51

  const NTT_MODS: seq<Limb> :=
    [0x28d8_0000_0000_0001, 0x2a88_0000_0000_0001, 0x2ed8_0000_0000_0001,
     0x3508_0000_0000_0001, 0x3aa8_0000_0000_0001]

  /** The roots for the transform, then those for the way back. */
  const NTT_PROOT: seq<seq<Limb>> := [
    [0x1b8e_a610_34a2_bea7, 0x21a9_762d_e582_06fb, 0x02ca_782f_0756_a8ea,
     0x2783_8453_7a3e_50a1, 0x106e_13fe_e74c_e0ab],
    [0x2335_13af_133e_13b8, 0x1d13_140d_1c6f_75f1, 0x12cd_e57f_97e3_eeda,
     0x0d61_49e2_3cbe_654f, 0x36cd_204f_522a_1379]]

  /** Of each prime modulo every later one. */
  const NTT_MODS_CR: seq<Limb> :=
    [0x08a9_ed09_7b42_5eea, 0x18a4_4aaa_aaaa_aab3, 0x2493_f57f_57f5_7f5d,
     0x126b_8d06_49a7_f8d4, 0x09d8_0ed7_303b_5ccc, 0x25b8_bcf3_cf3c_f3d5,
     0x2ce6_ce63_398c_e638, 0x0e31_fad4_0a57_eb59, 0x02a3_529f_d4a7_f52f,
     0x3a54_93e9_3e93_e94a]

  /** How many bits fit into the product of the primes from j on. */
  const NTT_INT_BITS: seq<nat> := [307, 246, 185, 123, 61]

  /** c squared n times, modulo m. */
  function SquareChain(c: int, n: nat, m: int): int
    requires m > 0
    decreases n
  {
    if n == 0 then c else SquareChain(c * c % m, n - 1, m)
  }

  lemma {:induction false} ChainNext(c: int, n: nat, m: int)
    requires m > 0
    ensures SquareChain(c, n + 1, m) == SquareChain(c, n, m) * SquareChain(c, n, m) % m
    decreases n
  {
    if n > 0 { ChainNext(c * c % m, n - 1, m); }
  }

  lemma {:induction false} Five(m: int, a: int, b: int, c: int, d: int, e: int, f: int, n: nat)
    requires m > 0 && a * a % m == b && b * b % m == c && c * c % m == d && d * d % m == e && e * e % m == f
    ensures SquareChain(a, n + 5, m) == SquareChain(f, n, m)
  {
    assert SquareChain(a, n + 5, m) == SquareChain(b, n + 4, m);
    assert SquareChain(b, n + 4, m) == SquareChain(c, n + 3, m);
    assert SquareChain(c, n + 3, m) == SquareChain(d, n + 2, m);
  }

  lemma {:induction false} ChainEnd(c: int, m: int)
    requires m > 0
    ensures SquareChain(c, 0, m) == c
  {
  }

  /** Every root squared fifty times is -1, so its order is 2^51. */
  lemma {:induction false} RootTurns(d: nat, j: nat)
    requires d < 2 && j < 5
    ensures 0 < NTT_PROOT[d][j] < NTT_MODS[j]
    ensures SquareChain(NTT_PROOT[d][j], 50, NTT_MODS[j]) == NTT_MODS[j] - 1
  {
    hide SquareChain;
    if d == 0 {
      if j == 0 { Turn00(); } else if j == 1 { Turn01(); } else if j == 2 { Turn02(); } else if j == 3 { Turn03(); } else { Turn04(); }
    } else {
      if j == 0 { Turn10(); } else if j == 1 { Turn11(); } else if j == 2 { Turn12(); } else if j == 3 { Turn13(); } else { Turn14(); }
    }
  }

  lemma {:induction false} Turn00()
    ensures SquareChain(0x1b8e_a610_34a2_bea7, 50, 0x28d8_0000_0000_0001) == 0x28d8_0000_0000_0000
  {
    hide SquareChain;
    var m := 0x28d8_0000_0000_0001;
    Five(m, 0x1b8e_a610_34a2_bea7, 0x11bf_2acc_9c71_3d40, 0x117e_cd40_b8f2_3ce3,
            0x045c_a06b_7dd5_5768, 0x2063_daa5_f3ab_2b8f, 0x1a86_76cd_7378_a4a2, 45);
    Five(m, 0x1a86_76cd_7378_a4a2, 0x0078_addf_baf5_d977, 0x1af4_7adc_2454_618d,
            0x0d47_e59d_2827_ff15, 0x066b_730a_50ae_367d, 0x27c9_981f_5b3e_d347, 40);
    Five(m, 0x27c9_981f_5b3e_d347, 0x0765_065a_915f_a984, 0x0b14_28bc_3415_79c0,
            0x01ee_4084_6a81_bd08, 0x0ce7_4593_826a_dfd0, 0x0460_4dfc_c678_00f8, 35);
    Five(m, 0x0460_4dfc_c678_00f8, 0x250c_e920_91a5_19ae, 0x09ad_9678_36a0_d03d,
            0x0f79_df39_b7a7_93dd, 0x1020_b130_7749_5562, 0x0808_861f_0e23_310c, 30);
    Five(m, 0x0808_861f_0e23_310c, 0x1881_d30f_64dd_e1b2, 0x0ba1_8994_b030_8683,
            0x02bc_9718_ea5a_bba3, 0x1ba0_8690_95d3_d799, 0x06d7_1610_52ed_33c7, 25);
    Five(m, 0x06d7_1610_52ed_33c7, 0x25ee_3bd9_c046_a388, 0x0052_4cb3_892c_e2ac,
            0x21e3_892d_a47b_fed1, 0x1a6a_2185_3386_9415, 0x1e40_f499_a11e_5c2f, 20);
    Five(m, 0x1e40_f499_a11e_5c2f, 0x1eea_2640_9f9f_add8, 0x0294_90b7_904c_808c,
            0x0381_b452_40be_e56d, 0x0be9_3041_1abb_d7ef, 0x1b2c_c404_c1f0_0eab, 15);
    Five(m, 0x1b2c_c404_c1f0_0eab, 0x1b75_8c41_9b90_72ed, 0x0931_dd93_b729_b453,
            0x2245_2455_2b85_5f94, 0x1020_0985_06d0_9868, 0x1986_5c90_2273_3918, 10);
    Five(m, 0x1986_5c90_2273_3918, 0x1480_b64f_ff3c_b853, 0x1607_0c05_6f2e_8ff4,
            0x1620_b415_1aec_bd96, 0x0342_0ab6_137b_bd61, 0x2719_ec74_5b89_fb2d, 5);
    Five(m, 0x2719_ec74_5b89_fb2d, 0x276d_1af9_b266_8e7b, 0x225c_203e_a7b1_acc0,
            0x2409_3693_8e1a_b821, 0x22dd_bb3c_2ad5_55da, 0x28d8_0000_0000_0000, 0);
    ChainEnd(0x28d8_0000_0000_0000, m);
  }

  lemma {:induction false} Turn01()
    ensures SquareChain(0x21a9_762d_e582_06fb, 50, 0x2a88_0000_0000_0001) == 0x2a88_0000_0000_0000
  {
    hide SquareChain;
    var m := 0x2a88_0000_0000_0001;
    Five(m, 0x21a9_762d_e582_06fb, 0x0c11_5151_fcca_a3b6, 0x1933_cae9_03d6_df84,
            0x18ce_d8f8_4565_af47, 0x10d7_01be_c133_727f, 0x0f78_a7db_7410_d9f9, 45);
    Five(m, 0x0f78_a7db_7410_d9f9, 0x16e6_56d8_509d_f599, 0x188b_ef80_e270_4c11,
            0x1c31_8b73_df28_8f7a, 0x0262_a414_98b0_83a7, 0x0956_60e2_1028_8c6a, 40);
    Five(m, 0x0956_60e2_1028_8c6a, 0x0d97_b8fe_678e_8d34, 0x0a46_e05b_dca8_2f31,
            0x13f1_1906_9292_1afa, 0x110b_6c5e_d7a4_5289, 0x29d6_f683_2539_95cf, 35);
    Five(m, 0x29d6_f683_2539_95cf, 0x0fd6_0a2a_200f_9c26, 0x2738_a11d_5cd1_c02c,
            0x1339_1b25_15ab_46f8, 0x13e8_2823_a00f_af4b, 0x2453_b599_51f8_62eb, 30);
    Five(m, 0x2453_b599_51f8_62eb, 0x2020_8e09_1c61_e871, 0x1910_9e91_8489_0ca7,
            0x16a6_96d4_620b_5233, 0x112c_70cf_f4f9_37c8, 0x23cb_ffd3_ac83_c407, 25);
    Five(m, 0x23cb_ffd3_ac83_c407, 0x28ed_6ee4_f794_1100, 0x1f7e_fd54_d99a_e8f3,
            0x0f92_34a4_2f60_ed3d, 0x1636_1632_299e_1269, 0x08df_c85e_c8f6_6421, 20);
    Five(m, 0x08df_c85e_c8f6_6421, 0x162a_ffd6_d19e_3f6d, 0x1ba7_0f27_ded9_92c5,
            0x00c7_4896_769a_e521, 0x078c_95dc_9fe7_d84e, 0x26f1_5b9d_4656_e9fe, 15);
    Five(m, 0x26f1_5b9d_4656_e9fe, 0x2115_01d4_9e89_e6db, 0x13d5_227e_55bc_d481,
            0x02b4_e464_43b4_8209, 0x09b9_8236_f89d_a2c7, 0x25b1_5c69_2eac_ff82, 10);
    Five(m, 0x25b1_5c69_2eac_ff82, 0x12fe_079f_b471_ccf6, 0x1c7f_2576_9cde_fca6,
            0x1945_8bb7_1425_89e2, 0x0104_4bb4_9e35_93fb, 0x0a95_1fce_e81e_1917, 5);
    Five(m, 0x0a95_1fce_e81e_1917, 0x10ae_703a_3f62_fd23, 0x0bac_4480_425c_3eec,
            0x146b_d875_e06a_2fc4, 0x236e_45c7_a910_2530, 0x2a88_0000_0000_0000, 0);
    ChainEnd(0x2a88_0000_0000_0000, m);
  }

  lemma {:induction false} Turn02()
    ensures SquareChain(0x02ca_782f_0756_a8ea, 50, 0x2ed8_0000_0000_0001) == 0x2ed8_0000_0000_0000
  {
    hide SquareChain;
    var m := 0x2ed8_0000_0000_0001;
    Five(m, 0x02ca_782f_0756_a8ea, 0x07f8_af46_8fa9_6c01, 0x2893_e1a9_5531_3b47,
            0x1198_75c7_1c30_5e20, 0x0fea_39f4_f588_e372, 0x0361_6ec6_8cc6_3a53, 45);
    Five(m, 0x0361_6ec6_8cc6_3a53, 0x1dd2_80e8_ca56_2289, 0x089b_4335_356f_5ba9,
            0x0046_e97a_f40d_727e, 0x0c73_b3b4_4a90_e273, 0x061d_fe8c_a699_2956, 40);
    Five(m, 0x061d_fe8c_a699_2956, 0x1d3e_5bda_ac52_234d, 0x1575_c284_b095_6e53,
            0x15be_952d_0519_9cd2, 0x1847_a2dd_dac1_2664, 0x0962_b718_917d_e5a0, 35);
    Five(m, 0x0962_b718_917d_e5a0, 0x1d04_41ae_2fbb_4b0e, 0x10bc_206b_6331_95d3,
            0x00d4_e22f_9033_841f, 0x2ba7_76ed_50d8_b268, 0x2783_d493_568c_b20b, 30);
    Five(m, 0x2783_d493_568c_b20b, 0x2926_54bb_fb07_3949, 0x0b0a_ea6e_d03a_0b36,
            0x1f4c_53ba_8b9b_e4fe, 0x1186_c4d8_d671_2ea1, 0x2883_edd0_b24d_7431, 25);
    Five(m, 0x2883_edd0_b24d_7431, 0x133a_9d8b_542f_301b, 0x1345_aa59_bc4d_4ab9,
            0x1551_7f78_be3b_a004, 0x167a_dd39_f82a_332c, 0x126c_d52e_e5f0_2406, 20);
    Five(m, 0x126c_d52e_e5f0_2406, 0x002f_2854_46e0_e92d, 0x2644_ab2c_4cd4_e358,
            0x0c29_93c4_9ed3_9235, 0x09fc_2f6f_c81e_4e61, 0x185e_1567_7023_65d4, 15);
    Five(m, 0x185e_1567_7023_65d4, 0x15c2_be1e_fb48_4f5a, 0x0317_3e6d_0fed_32fb,
            0x2c1a_707e_395a_e3bc, 0x2c98_5ac2_6b3d_5b61, 0x2956_b4b2_229d_8a8b, 10);
    Five(m, 0x2956_b4b2_229d_8a8b, 0x2e5f_530a_fca3_420d, 0x03d5_8c34_8242_857b,
            0x1112_0bcf_a537_59b0, 0x0f68_0f48_3975_f033, 0x22f1_a7a7_bbad_cd3b, 5);
    Five(m, 0x22f1_a7a7_bbad_cd3b, 0x1970_ef6c_9cbc_d317, 0x14bc_81fb_da44_89b1,
            0x1fbd_441f_e5e7_0563, 0x15eb_b0ed_ef88_5436, 0x2ed8_0000_0000_0000, 0);
    ChainEnd(0x2ed8_0000_0000_0000, m);
  }

  lemma {:induction false} Turn03()
    ensures SquareChain(0x2783_8453_7a3e_50a1, 50, 0x3508_0000_0000_0001) == 0x3508_0000_0000_0000
  {
    hide SquareChain;
    var m := 0x3508_0000_0000_0001;
    Five(m, 0x2783_8453_7a3e_50a1, 0x0d82_aa94_862d_b309, 0x17c5_b1d8_edc9_47b5,
            0x1f09_91d2_b810_c767, 0x158d_ad65_5569_cce8, 0x343a_21dd_03b1_76d0, 45);
    Five(m, 0x343a_21dd_03b1_76d0, 0x0bd7_0406_4191_e73e, 0x30d3_7af3_24a9_1bf3,
            0x10c4_57f0_5ef4_8610, 0x336d_9c34_6ad2_24cd, 0x00c5_ddfd_400b_d872, 40);
    Five(m, 0x00c5_ddfd_400b_d872, 0x1215_afd4_1184_f7b4, 0x1dca_774d_45bb_85bb,
            0x2590_abd4_7f6f_2b7b, 0x3431_c6d1_a0e1_83d2, 0x2ba9_d151_84e5_6f91, 35);
    Five(m, 0x2ba9_d151_84e5_6f91, 0x0a07_7f0e_808f_55e7, 0x10e4_aca6_fe02_a647,
            0x27a6_aad2_4167_a986, 0x2ad8_5329_5221_4a5d, 0x197d_efb9_6469_6287, 30);
    Five(m, 0x197d_efb9_6469_6287, 0x0b87_fab7_1e36_ea1a, 0x1690_822d_1f88_258f,
            0x1e52_d2ea_cbc6_9b26, 0x0eb3_bb69_12cb_9ea0, 0x077b_b40c_803c_1315, 25);
    Five(m, 0x077b_b40c_803c_1315, 0x2013_2031_88e9_7741, 0x18d0_7bde_7b14_3666,
            0x3344_5641_4536_a778, 0x08dc_7997_ac08_8ab6, 0x1ac4_1ca8_8e35_b838, 20);
    Five(m, 0x1ac4_1ca8_8e35_b838, 0x11c3_42f9_56ab_b257, 0x07fc_7ef2_83fe_83b4,
            0x24e0_c361_3c97_a76a, 0x0f2a_ad0a_6ea1_df84, 0x113e_f325_9d22_e0e7, 15);
    Five(m, 0x113e_f325_9d22_e0e7, 0x0807_98a2_5651_38f9, 0x33d5_3835_ce5b_c3ad,
            0x0f53_2653_e3b2_44ce, 0x0c39_b4ae_0e71_ff75, 0x2484_f63c_7f3a_0060, 10);
    Five(m, 0x2484_f63c_7f3a_0060, 0x2d85_376e_2b03_6871, 0x2ac7_b1f3_aa07_6f6e,
            0x0c62_d8c2_9ed3_e71c, 0x22b7_2fb7_00b9_97ff, 0x0477_b150_e0cd_d0d0, 5);
    Five(m, 0x0477_b150_e0cd_d0d0, 0x082a_9b91_aafa_024c, 0x1255_b0fb_439f_ed7f,
            0x12b6_abe6_c05e_a197, 0x1639_a4ef_ab58_72e6, 0x3508_0000_0000_0000, 0);
    ChainEnd(0x3508_0000_0000_0000, m);
  }

  lemma {:induction false} Turn04()
    ensures SquareChain(0x106e_13fe_e74c_e0ab, 50, 0x3aa8_0000_0000_0001) == 0x3aa8_0000_0000_0000
  {
    hide SquareChain;
    var m := 0x3aa8_0000_0000_0001;
    Five(m, 0x106e_13fe_e74c_e0ab, 0x2ab4_e398_6f2e_e22c, 0x0990_40fc_a134_ac6b,
            0x117d_12ab_5ecb_3741, 0x07d5_f7dc_1c1f_064c, 0x3474_4e3b_c14f_85e3, 45);
    Five(m, 0x3474_4e3b_c14f_85e3, 0x0fd6_8f62_4aa1_1dbb, 0x1868_6bf8_4cb3_3e74,
            0x3530_cf4f_724d_4754, 0x0500_c9b3_0522_8d71, 0x13ea_5d95_20df_4233, 40);
    Five(m, 0x13ea_5d95_20df_4233, 0x0df5_a5ca_37b8_046e, 0x0396_e257_658c_a538,
            0x06e7_38d9_0aaf_4949, 0x154a_5bd6_5830_90cf, 0x1660_5fa7_ea67_abaa, 35);
    Five(m, 0x1660_5fa7_ea67_abaa, 0x2952_8a36_b3b3_ad3e, 0x00b4_4590_8ec8_0a80,
            0x38cd_2dec_35b1_a093, 0x37a3_6543_3686_0829, 0x16d4_e603_6332_f01f, 30);
    Five(m, 0x16d4_e603_6332_f01f, 0x21de_ac0f_1b7c_42e3, 0x37d1_9eb8_6938_0dee,
            0x35f2_7521_5541_e0fa, 0x37a7_a16e_0d67_f70b, 0x0a6b_48a0_27ed_9cb0, 25);
    Five(m, 0x0a6b_48a0_27ed_9cb0, 0x1af7_5487_599c_3922, 0x17ae_e307_90b9_e2b3,
            0x1de1_8789_eb23_e9e0, 0x0f54_a923_67f8_82db, 0x1e99_1350_84ab_55df, 20);
    Five(m, 0x1e99_1350_84ab_55df, 0x2c8d_cbb4_4789_fc3d, 0x1bbb_b5ff_8459_5c2b,
            0x210b_e1ec_d56e_9b43, 0x31cf_0e77_383b_da15, 0x2303_89d0_3a97_41a9, 15);
    Five(m, 0x2303_89d0_3a97_41a9, 0x2c01_d728_b756_e204, 0x1b1a_6ae0_e821_4e50,
            0x3a19_a874_9981_d638, 0x3823_6c52_f5ed_b34c, 0x2d6d_4ea4_5938_d2da, 10);
    Five(m, 0x2d6d_4ea4_5938_d2da, 0x2af1_1c7b_4888_771b, 0x2e7b_6c57_0b50_1118,
            0x339a_275f_79ea_4bbd, 0x376d_a315_b593_dc22, 0x0b83_1418_ae22_16ee, 5);
    Five(m, 0x0b83_1418_ae22_16ee, 0x1acd_71a3_bfdf_d8de, 0x0226_a78b_52d5_7311,
            0x3410_60b3_45a6_187d, 0x0190_871e_7f52_cc53, 0x3aa8_0000_0000_0000, 0);
    ChainEnd(0x3aa8_0000_0000_0000, m);
  }

  lemma {:induction false} Turn10()
    ensures SquareChain(0x2335_13af_133e_13b8, 50, 0x28d8_0000_0000_0001) == 0x28d8_0000_0000_0000
  {
    hide SquareChain;
    var m := 0x28d8_0000_0000_0001;
    Five(m, 0x2335_13af_133e_13b8, 0x0cdd_44c2_83a7_3c7b, 0x11f6_5456_55f3_b96a,
            0x1deb_a4af_40ad_a1f2, 0x0ce1_9a65_8fc5_ef0f, 0x21d9_6943_39e9_fc81, 45);
    Five(m, 0x21d9_6943_39e9_fc81, 0x2442_8ff1_f0b9_06a8, 0x01a8_d9db_ddf2_e206,
            0x27e8_dfb4_b95b_571e, 0x0cbe_b346_8e09_f0be, 0x1e86_4ac1_1a9a_ea3a, 40);
    Five(m, 0x1e86_4ac1_1a9a_ea3a, 0x265a_85d8_c78c_3cc6, 0x1f33_b42e_c181_3db3,
            0x14f5_ee8e_4cfb_f3e9, 0x24ce_a2ea_5266_3528, 0x1c62_09a1_8964_2583, 35);
    Five(m, 0x1c62_09a1_8964_2583, 0x15b9_73a8_f5f6_9a77, 0x23f3_8167_f780_5ad9,
            0x1611_b115_1f13_928d, 0x0230_1147_5dfd_8651, 0x1d43_71b3_31e1_5a74, 30);
    Five(m, 0x1d43_71b3_31e1_5a74, 0x16b7_85e6_dd0c_5668, 0x0b07_1770_a345_1c1f,
            0x096f_0778_1ac6_6747, 0x0a2f_ce48_5c8f_e882, 0x177d_590e_5a40_3586, 25);
    Five(m, 0x177d_590e_5a40_3586, 0x15d7_e696_800d_b36e, 0x0eeb_1047_2661_46e2,
            0x096b_acbf_b9db_1888, 0x1757_7f48_b230_3760, 0x12c0_8c91_a49e_3b08, 20);
    Five(m, 0x12c0_8c91_a49e_3b08, 0x1086_b66f_0a44_8efd, 0x0af1_5398_74fc_7b52,
            0x0ae4_e130_a7c9_e736, 0x0c1c_cdc5_e8a1_4a99, 0x240b_055b_953f_69f7, 15);
    Five(m, 0x240b_055b_953f_69f7, 0x07f7_5e3e_e2b3_be0f, 0x0a21_2967_6f52_eb12,
            0x043e_cfdb_a4f4_ec86, 0x282f_23a4_adeb_9a58, 0x01d1_16c6_d551_73ae, 10);
    Five(m, 0x01d1_16c6_d551_73ae, 0x0d38_cd96_a599_c8ba, 0x0108_fdb6_4dd6_80d0,
            0x0126_4dba_f422_23a7, 0x0073_148d_a128_0d64, 0x1d08_8304_ae5f_31f3, 5);
    Five(m, 0x1d08_8304_ae5f_31f3, 0x0252_7ef2_dcbf_c290, 0x0669_f12f_d54d_82f4,
            0x020d_b9f6_7bbd_90af, 0x05fa_44c3_d52a_aa27, 0x28d8_0000_0000_0000, 0);
    ChainEnd(0x28d8_0000_0000_0000, m);
  }

  lemma {:induction false} Turn11()
    ensures SquareChain(0x1d13_140d_1c6f_75f1, 50, 0x2a88_0000_0000_0001) == 0x2a88_0000_0000_0000
  {
    hide SquareChain;
    var m := 0x2a88_0000_0000_0001;
    Five(m, 0x1d13_140d_1c6f_75f1, 0x29e6_16ec_35f3_8814, 0x1dd6_7cac_b2cd_02ed,
            0x03c0_78fc_8823_6bd1, 0x1dd1_20cf_c608_c5af, 0x284b_bd8f_2918_5f66, 45);
    Five(m, 0x284b_bd8f_2918_5f66, 0x2866_71f0_76b5_c6e8, 0x2211_9da4_f476_0993,
            0x1487_8426_abac_1e65, 0x263d_cadd_9d99_293b, 0x034b_2950_584e_a2aa, 40);
    Five(m, 0x034b_2950_584e_a2aa, 0x1da0_faf8_8cef_f196, 0x0bb0_61fc_2e27_87b4,
            0x1ced_655b_9e76_d8b5, 0x0229_131d_6286_aa5d, 0x0505_b02e_d705_26bd, 35);
    Five(m, 0x0505_b02e_d705_26bd, 0x1369_a1b0_be77_ca56, 0x27cc_1e21_987f_b76a,
            0x0384_d185_28d5_f366, 0x10dc_7b61_961d_876b, 0x2818_d0e9_cda2_59d4, 30);
    Five(m, 0x2818_d0e9_cda2_59d4, 0x1090_21c7_6a1f_9eee, 0x1b3d_67ad_093a_3bde,
            0x0810_7719_481d_cc94, 0x0344_e263_4596_d45f, 0x2442_5182_d11f_54b1, 25);
    Five(m, 0x2442_5182_d11f_54b1, 0x1ea8_c397_7a7f_56c3, 0x13f1_2675_50ee_d0fc,
            0x20ba_45a4_f629_f0e6, 0x06ce_38a0_4e0b_bc63, 0x1f3f_2bec_0ff8_258d, 20);
    Five(m, 0x1f3f_2bec_0ff8_258d, 0x0f0a_cea3_2bcc_aba8, 0x1ff1_6ea3_1a34_17f8,
            0x1f80_9c40_cd89_2afe, 0x2722_ab45_1a84_5423, 0x070c_82da_685a_b622, 15);
    Five(m, 0x070c_82da_685a_b622, 0x0c07_7c6f_0ea8_4f84, 0x12f4_b0d8_42b7_fa1a,
            0x0e22_5f45_bce8_8b7d, 0x0e61_dc44_2721_c34c, 0x1900_a1ba_2803_b286, 10);
    Five(m, 0x1900_a1ba_2803_b286, 0x0022_6fd9_0b70_0da9, 0x1dfe_6cd8_6bd0_bb5a,
            0x0111_45e4_dac2_0691, 0x00a8_06ad_69ba_291c, 0x2220_8520_cbab_2976, 5);
    Five(m, 0x2220_8520_cbab_2976, 0x032d_b2f7_a21e_3739, 0x2069_45ed_40a9_061c,
            0x0e82_5c6e_240a_6635, 0x0719_ba38_56ef_dad1, 0x2a88_0000_0000_0000, 0);
    ChainEnd(0x2a88_0000_0000_0000, m);
  }

  lemma {:induction false} Turn12()
    ensures SquareChain(0x12cd_e57f_97e3_eeda, 50, 0x2ed8_0000_0000_0001) == 0x2ed8_0000_0000_0000
  {
    hide SquareChain;
    var m := 0x2ed8_0000_0000_0001;
    Five(m, 0x12cd_e57f_97e3_eeda, 0x1377_4317_8538_cd4f, 0x2a7b_8628_c400_e6ad,
            0x15e5_94d5_8c93_ecba, 0x25b0_d323_461d_4add, 0x11fb_5046_ce2c_9917, 45);
    Five(m, 0x11fb_5046_ce2c_9917, 0x2a58_d93c_9287_3224, 0x1df6_d246_445a_6388,
            0x08f6_f866_db40_757b, 0x0af8_13ff_4262_757c, 0x157b_d376_feb8_5f70, 40);
    Five(m, 0x157b_d376_feb8_5f70, 0x116a_a26d_9cc4_bb67, 0x2508_940c_d954_a841,
            0x18f4_730a_4d03_7153, 0x02ad_33c8_d5d2_7c59, 0x0d90_8a51_f44c_0b28, 35);
    Five(m, 0x0d90_8a51_f44c_0b28, 0x1cc1_aec7_f4eb_eeb7, 0x2307_4719_5026_0d3d,
            0x2a4a_bff3_a8c1_8bd4, 0x1b35_ac86_0a5d_a5a0, 0x1725_c1c0_37bf_1582, 30);
    Five(m, 0x1725_c1c0_37bf_1582, 0x2d55_c5c9_fdfe_0084, 0x0878_044a_aa83_5383,
            0x1833_1a20_e4d2_44b7, 0x0177_2879_49e5_5511, 0x0276_957e_810e_fd21, 25);
    Five(m, 0x0276_957e_810e_fd21, 0x122c_89e7_bdcb_7658, 0x0b32_c562_c261_79aa,
            0x1f5b_5959_1e02_cc03, 0x2345_2671_79d6_b877, 0x27f6_877d_087a_8bf7, 20);
    Five(m, 0x27f6_877d_087a_8bf7, 0x296f_48dd_34e1_4a09, 0x13b2_b98b_d778_a4b1,
            0x11d2_06e6_3a42_6d17, 0x0e77_c48d_8148_af4c, 0x073f_e359_6c0a_b99b, 15);
    Five(m, 0x073f_e359_6c0a_b99b, 0x1901_c4f8_45ce_db75, 0x05e6_0450_c81e_2f96,
            0x2533_77fe_1399_df00, 0x0545_a315_598d_144f, 0x15c3_6fcf_350f_82cb, 10);
    Five(m, 0x15c3_6fcf_350f_82cb, 0x1bbe_8397_d0be_6d52, 0x2506_450c_5628_7024,
            0x2df1_a72a_1bb1_4b7b, 0x063c_640a_ea0a_1eff, 0x258b_a17e_c2a3_ee35, 5);
    Five(m, 0x258b_a17e_c2a3_ee35, 0x1c20_4286_795b_923b, 0x0658_0118_e560_7fdb,
            0x0251_8a53_9b05_1059, 0x18ec_4f12_1077_abcb, 0x2ed8_0000_0000_0000, 0);
    ChainEnd(0x2ed8_0000_0000_0000, m);
  }

  lemma {:induction false} Turn13()
    ensures SquareChain(0x0d61_49e2_3cbe_654f, 50, 0x3508_0000_0000_0001) == 0x3508_0000_0000_0000
  {
    hide SquareChain;
    var m := 0x3508_0000_0000_0001;
    Five(m, 0x0d61_49e2_3cbe_654f, 0x3379_832c_9789_f2b5, 0x0eaf_fa34_e280_a3da,
            0x25aa_5fbb_3742_89c4, 0x0c61_e234_9ca4_20fe, 0x1ede_2c61_0c8b_b294, 45);
    Five(m, 0x1ede_2c61_0c8b_b294, 0x0c25_fc3f_063c_1802, 0x2832_3105_82d5_7f11,
            0x329d_5981_b9ad_a5d4, 0x1a24_1312_17d5_3cbe, 0x0926_00aa_6a00_c630, 40);
    Five(m, 0x0926_00aa_6a00_c630, 0x2cbf_d6be_71a4_c045, 0x1046_d5c8_b9e5_de6d,
            0x1378_0c9e_6125_0d7b, 0x33b7_843f_fdfb_f50f, 0x2860_b03f_387b_1e16, 35);
    Five(m, 0x2860_b03f_387b_1e16, 0x201e_db9d_8e09_94a2, 0x0a5f_999e_dc86_ce24,
            0x33ad_ff89_9376_8cb7, 0x1329_b9ce_e157_caf2, 0x0c07_1fab_e9ae_77b3, 30);
    Five(m, 0x0c07_1fab_e9ae_77b3, 0x1e7f_f27d_f1e8_52eb, 0x1713_f15d_855b_8b80,
            0x24d7_9cb6_4f5a_6d68, 0x162a_da58_a529_2c12, 0x0286_ee0e_fee8_80e3, 25);
    Five(m, 0x0286_ee0e_fee8_80e3, 0x29cb_8bd5_1c9d_65f5, 0x33c3_fa26_bdef_ed83,
            0x166c_d45c_b972_06d4, 0x00ee_6ef0_6255_da4e, 0x0196_0229_c168_aeab, 20);
    Five(m, 0x0196_0229_c168_aeab, 0x0499_7c89_4a8d_5375, 0x06be_8d04_2119_ea88,
            0x25a5_419e_3025_bde6, 0x0a26_2294_6e8b_a7ee, 0x2f68_7a7a_be54_9c60, 15);
    Five(m, 0x2f68_7a7a_be54_9c60, 0x2630_a721_550e_256c, 0x31a2_5e7d_05c5_6c2d,
            0x2a2d_8cd5_86e5_ec93, 0x32dc_3aa7_2f1c_9ad2, 0x17e5_7435_4ae3_c497, 10);
    Five(m, 0x17e5_7435_4ae3_c497, 0x1372_23fe_8742_b3c7, 0x0eff_28b3_2448_94ce,
            0x1b63_495e_c429_b467, 0x12c8_2729_e038_96df, 0x00fc_7800_0d33_3538, 5);
    Five(m, 0x00fc_7800_0d33_3538, 0x1e76_0bb4_dcee_ebd5, 0x22c8_4492_b5b2_e859,
            0x16c6_9ea1_678a_17f3, 0x1ece_5b10_54a7_8d1b, 0x3508_0000_0000_0000, 0);
    ChainEnd(0x3508_0000_0000_0000, m);
  }

  lemma {:induction false} Turn14()
    ensures SquareChain(0x36cd_204f_522a_1379, 50, 0x3aa8_0000_0000_0001) == 0x3aa8_0000_0000_0000
  {
    hide SquareChain;
    var m := 0x3aa8_0000_0000_0001;
    Five(m, 0x36cd_204f_522a_1379, 0x3934_2398_5be6_22ea, 0x25b9_60eb_1c54_69e8,
            0x0427_f8f6_720e_202a, 0x3870_629f_ad06_fc05, 0x199d_18fb_c3bc_667c, 45);
    Five(m, 0x199d_18fb_c3bc_667c, 0x0109_7573_f6be_12a2, 0x3485_f91a_0930_71b1,
            0x1687_c0aa_853f_9c43, 0x2f9d_c1d3_f517_ea85, 0x082a_756c_6d30_4659, 40);
    Five(m, 0x082a_756c_6d30_4659, 0x1483_d3f0_7006_74a0, 0x0dc3_402b_6d73_5f12,
            0x0b37_b729_f7a3_388a, 0x1678_94cf_475a_40a5, 0x316a_b6e4_cfd9_d011, 35);
    Five(m, 0x316a_b6e4_cfd9_d011, 0x0a66_c146_5016_fcdd, 0x0239_b4b9_ef01_1063,
            0x0460_4659_575d_78ca, 0x08b1_8a91_e4b7_46e5, 0x0b8c_5332_b009_21ee, 30);
    Five(m, 0x0b8c_5332_b009_21ee, 0x0ec0_1aa6_0b48_f23b, 0x0f07_e476_c92e_4edf,
            0x2017_a547_7e48_5c14, 0x0251_2bab_5d15_9ae1, 0x0d87_c468_48ee_2e91, 25);
    Five(m, 0x0d87_c468_48ee_2e91, 0x3561_b753_8d54_90a4, 0x2f41_ab07_9f8a_0e59,
            0x2c73_f4f0_9893_213f, 0x0a3f_1d8b_8b9d_dbd2, 0x06f8_de06_3a5e_ad81, 20);
    Five(m, 0x06f8_de06_3a5e_ad81, 0x28de_bf75_bd45_7918, 0x24af_fdc4_3897_26f9,
            0x1ce1_f389_5625_fb8a, 0x218f_ef0d_b656_7ca1, 0x0dbe_2f3f_d7e9_7b5c, 15);
    Five(m, 0x0dbe_2f3f_d7e9_7b5c, 0x3220_35c2_345c_6723, 0x00c8_779d_caf0_6fc2,
            0x07b5_1502_c6ec_152d, 0x2b92_7e88_bef5_1cb4, 0x2ff2_6db4_6b70_029c, 10);
    Five(m, 0x2ff2_6db4_6b70_029c, 0x15a1_ef1e_2191_86aa, 0x0145_6c49_b593_9c17,
            0x2bf3_6f83_6fc7_f87a, 0x0bbe_755d_ca5b_a518, 0x3348_b318_a585_ce4a, 5);
    Five(m, 0x3348_b318_a585_ce4a, 0x3a51_5081_32e9_13ca, 0x3984_f065_b023_a549,
            0x2b2a_cec0_1155_5dab, 0x3917_78e1_80ad_33ae, 0x3aa8_0000_0000_0000, 0);
    ChainEnd(0x3aa8_0000_0000_0000, m);
  }

  lemma {:induction false} RootsInvert(j: nat)
    requires j < 5
    ensures NTT_PROOT[0][j] as int * NTT_PROOT[1][j] % NTT_MODS[j] == 1
  {
    assert 0x1b8e_a610_34a2_bea7 * 0x2335_13af_133e_13b8 % 0x28d8_0000_0000_0001 == 1;
    assert 0x21a9_762d_e582_06fb * 0x1d13_140d_1c6f_75f1 % 0x2a88_0000_0000_0001 == 1;
    assert 0x02ca_782f_0756_a8ea * 0x12cd_e57f_97e3_eeda % 0x2ed8_0000_0000_0001 == 1;
    assert 0x2783_8453_7a3e_50a1 * 0x0d61_49e2_3cbe_654f % 0x3508_0000_0000_0001 == 1;
    assert 0x106e_13fe_e74c_e0ab * 0x36cd_204f_522a_1379 % 0x3aa8_0000_0000_0001 == 1;
  }

  /** Where the inverse of prime j modulo prime k stands. */
  function PairIndex(j: nat, k: nat): (l: nat)
    requires j < k < 5
    ensures l < 10
  {
    (if j == 0 then 0 else if j == 1 then 4 else if j == 2 then 7 else 9) + (k - j - 1)
  }

  lemma {:induction false} PrimesInvert(j: nat, k: nat)
    requires j < k < 5
    ensures NTT_MODS_CR[PairIndex(j, k)] < NTT_MODS[k]
    ensures NTT_MODS_CR[PairIndex(j, k)] as int * NTT_MODS[j] % NTT_MODS[k] == 1
  {
    assert 0x08a9_ed09_7b42_5eea * 0x28d8_0000_0000_0001 % 0x2a88_0000_0000_0001 == 1;
    assert 0x18a4_4aaa_aaaa_aab3 * 0x28d8_0000_0000_0001 % 0x2ed8_0000_0000_0001 == 1;
    assert 0x2493_f57f_57f5_7f5d * 0x28d8_0000_0000_0001 % 0x3508_0000_0000_0001 == 1;
    assert 0x126b_8d06_49a7_f8d4 * 0x28d8_0000_0000_0001 % 0x3aa8_0000_0000_0001 == 1;
    assert 0x09d8_0ed7_303b_5ccc * 0x2a88_0000_0000_0001 % 0x2ed8_0000_0000_0001 == 1;
    assert 0x25b8_bcf3_cf3c_f3d5 * 0x2a88_0000_0000_0001 % 0x3508_0000_0000_0001 == 1;
    assert 0x2ce6_ce63_398c_e638 * 0x2a88_0000_0000_0001 % 0x3aa8_0000_0000_0001 == 1;
    assert 0x0e31_fad4_0a57_eb59 * 0x2ed8_0000_0000_0001 % 0x3508_0000_0000_0001 == 1;
    assert 0x02a3_529f_d4a7_f52f * 0x2ed8_0000_0000_0001 % 0x3aa8_0000_0000_0001 == 1;
    assert 0x3a54_93e9_3e93_e94a * 0x3508_0000_0000_0001 % 0x3aa8_0000_0000_0001 == 1;
  }

  /** The product of the primes from j on. */
  ghost function Primes(j: nat): int
    decreases 5 - j
  {
    if j >= 5 then 1 else NTT_MODS[j] * Primes(j + 1)
  }

  lemma {:induction false} PrimesValue()
    ensures Primes(4) == 0x3aa8_0000_0000_0001 && Primes(3) == 0x0c26_9d40_0000_0000_6fb0_0000_0000_0001
    ensures Primes(2) == 0x0239_30d6_2e00_0000_2096_79c0_0000_0000_9e88_0000_0000_0001
    ensures Primes(1) == 0x005e_9065_1554_7000_07a3_30c0_5c00_0000_3aed_0200_0000_0000_c910_0000_0000_0001
    ensures Primes(0) == 0x000f_1659_a09f_30be_8196_81b4_4602_1000_1109_f10a_0c00_0000_5b01_2780_0000_0000_f1e8_0000_0000_0001
  {
    assert Primes(5) == 1;
    assert Primes(4) == 0x3aa8_0000_0000_0001;
    assert Primes(3) == NTT_MODS[3] as int * 0x3aa8_0000_0000_0001;
    assert Primes(2) == NTT_MODS[2] as int * 0x0c26_9d40_0000_0000_6fb0_0000_0000_0001;
    assert Primes(1) == NTT_MODS[1] as int * 0x0239_30d6_2e00_0000_2096_79c0_0000_0000_9e88_0000_0000_0001;
    assert Primes(0) == NTT_MODS[0] as int * 0x005e_9065_1554_7000_07a3_30c0_5c00_0000_3aed_0200_0000_0000_c910_0000_0000_0001;
  }

  lemma {:induction false} TwoLarge()
    ensures Two(61) == 0x2000_0000_0000_0000 && Two(123) == 0x0800_0000_0000_0000_0000_0000_0000_0000
    ensures Two(185) == 0x0200_0000_0000_0000_0000_0000_0000_0000_0000_0000_0000_0000
    ensures Two(246) == 0x0040_0000_0000_0000_0000_0000_0000_0000_0000_0000_0000_0000_0000_0000_0000_0000
    ensures Two(307) == 0x0008_0000_0000_0000_0000_0000_0000_0000_0000_0000_0000_0000_0000_0000_0000_0000_0000_0000_0000_0000
  {
    hide Two;
    TwoSixtyOne();
    TwoAdd(61, 62);
    TwoAdd(123, 62);
    TwoAdd(185, 61);
    TwoAdd(246, 61);
    assert 0x0800_0000_0000_0000_0000_0000_0000_0000 == 0x2000_0000_0000_0000 * 0x4000_0000_0000_0000;
    assert 0x0200_0000_0000_0000_0000_0000_0000_0000_0000_0000_0000_0000 == 0x0800_0000_0000_0000_0000_0000_0000_0000 * 0x4000_0000_0000_0000;
    assert 0x0040_0000_0000_0000_0000_0000_0000_0000_0000_0000_0000_0000_0000_0000_0000_0000 == 0x0200_0000_0000_0000_0000_0000_0000_0000_0000_0000_0000_0000 * 0x2000_0000_0000_0000;
    assert 0x0008_0000_0000_0000_0000_0000_0000_0000_0000_0000_0000_0000_0000_0000_0000_0000_0000_0000_0000_0000 == 0x0040_0000_0000_0000_0000_0000_0000_0000_0000_0000_0000_0000_0000_0000_0000_0000 * 0x2000_0000_0000_0000;
  }

  lemma {:induction false} TwoSixtyOne()
    ensures Two(61) == 0x2000_0000_0000_0000 && Two(62) == 0x4000_0000_0000_0000
  {
    TwoSixtyFour();
    assert Two(64) == 2 * Two(63) && Two(63) == 2 * Two(62) && Two(62) == 2 * Two(61);
  }

  lemma {:induction false} PrimesRoom(j: nat)
    requires j < 5
    ensures Two(NTT_INT_BITS[j]) <= Primes(j)
  {
    hide Two, Primes;
    PrimesValue();
    TwoLarge();
  }

  lemma {:induction false} PrimesSorted(j: nat, k: nat)
    requires j < k < 5
    ensures 0x2000_0000_0000_0000 < NTT_MODS[j] < NTT_MODS[k] < 0x4000_0000_0000_0000
  {
  }
}
