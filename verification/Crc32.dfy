/** The table-driven CRC-32 of limine-install.c, against division a bit at a time. */
module Crc32 {

  type byte = bv8

  /** The reflected generator polynomial (section 8 of RFC 1952). */
  const POLY: bv32 := 0xedb8_8320

  // ---------- division, a bit at a time ----------

  /** Subtracts the generator polynomial if a bit was shifted out. */
  function Reduced(c: bv32, out: bool): bv32 {
    if out then c ^ POLY else c
  }

  /** One shift of the register, with the reduction that it calls for. */
  function Step(c: bv32): bv32 {
    Reduced(c >> 1, c & 1 == 1)
  }

  /** Divides in one more bit of the message. */
  function FeedBit(c: bv32, bit: bool): bv32 {
    Reduced(c >> 1, (c & 1 == 1) != bit)
  }

  /** The bits of a byte, the lowest first. */
  function Bits(b: byte): (s: seq<bool>)
    ensures |s| == 8
  {
    [b & 1 != 0, b & 2 != 0, b & 4 != 0, b & 8 != 0, b & 16 != 0, b & 32 != 0, b & 64 != 0, b & 128 != 0]
  }

  function Flatten<A, B>(f: A -> seq<B>, s: seq<A>): seq<B> {
    if s == [] then [] else Flatten(f, s[..|s| - 1]) + f(s[|s| - 1])
  }

  function Fold<S, B>(f: (S, B) -> S, c: S, xs: seq<B>): S
    decreases |xs|
  {
    if xs == [] then c else f(Fold(f, c, xs[..|xs| - 1]), xs[|xs| - 1])
  }

  function MessageBits(s: seq<byte>): seq<bool> {
    Flatten(Bits, s)
  }

  function Divide(c: bv32, bits: seq<bool>): bv32 {
    Fold(FeedBit, c, bits)
  }

  /** The CRC-32 of a message, by its definition. */
  function Crc(s: seq<byte>): bv32 {
    Divide(0xffff_ffff, MessageBits(s)) ^ 0xffff_ffff
  }

  // ---------- the table ----------

  function TableRow0(low: bv8): bv32 {
    if low == 0 then 0x0000_0000 else if low == 1 then 0x7707_3096 else if low == 2 then 0xee0e_612c else
    if low == 3 then 0x9909_51ba else if low == 4 then 0x076d_c419 else if low == 5 then 0x706a_f48f else
    if low == 6 then 0xe963_a535 else if low == 7 then 0x9e64_95a3 else if low == 8 then 0x0edb_8832 else
    if low == 9 then 0x79dc_b8a4 else if low == 10 then 0xe0d5_e91e else if low == 11 then 0x97d2_d988 else
    if low == 12 then 0x09b6_4c2b else if low == 13 then 0x7eb1_7cbd else if low == 14 then 0xe7b8_2d07 else
    0x90bf_1d91
  }

  function TableRow1(low: bv8): bv32 {
    if low == 0 then 0x1db7_1064 else if low == 1 then 0x6ab0_20f2 else if low == 2 then 0xf3b9_7148 else
    if low == 3 then 0x84be_41de else if low == 4 then 0x1ada_d47d else if low == 5 then 0x6ddd_e4eb else
    if low == 6 then 0xf4d4_b551 else if low == 7 then 0x83d3_85c7 else if low == 8 then 0x136c_9856 else
    if low == 9 then 0x646b_a8c0 else if low == 10 then 0xfd62_f97a else if low == 11 then 0x8a65_c9ec else
    if low == 12 then 0x1401_5c4f else if low == 13 then 0x6306_6cd9 else if low == 14 then 0xfa0f_3d63 else
    0x8d08_0df5
  }

  function TableRow2(low: bv8): bv32 {
    if low == 0 then 0x3b6e_20c8 else if low == 1 then 0x4c69_105e else if low == 2 then 0xd560_41e4 else
    if low == 3 then 0xa267_7172 else if low == 4 then 0x3c03_e4d1 else if low == 5 then 0x4b04_d447 else
    if low == 6 then 0xd20d_85fd else if low == 7 then 0xa50a_b56b else if low == 8 then 0x35b5_a8fa else
    if low == 9 then 0x42b2_986c else if low == 10 then 0xdbbb_c9d6 else if low == 11 then 0xacbc_f940 else
    if low == 12 then 0x32d8_6ce3 else if low == 13 then 0x45df_5c75 else if low == 14 then 0xdcd6_0dcf else
    0xabd1_3d59
  }

  function TableRow3(low: bv8): bv32 {
    if low == 0 then 0x26d9_30ac else if low == 1 then 0x51de_003a else if low == 2 then 0xc8d7_5180 else
    if low == 3 then 0xbfd0_6116 else if low == 4 then 0x21b4_f4b5 else if low == 5 then 0x56b3_c423 else
    if low == 6 then 0xcfba_9599 else if low == 7 then 0xb8bd_a50f else if low == 8 then 0x2802_b89e else
    if low == 9 then 0x5f05_8808 else if low == 10 then 0xc60c_d9b2 else if low == 11 then 0xb10b_e924 else
    if low == 12 then 0x2f6f_7c87 else if low == 13 then 0x5868_4c11 else if low == 14 then 0xc161_1dab else
    0xb666_2d3d
  }

  function TableRow4(low: bv8): bv32 {
    if low == 0 then 0x76dc_4190 else if low == 1 then 0x01db_7106 else if low == 2 then 0x98d2_20bc else
    if low == 3 then 0xefd5_102a else if low == 4 then 0x71b1_8589 else if low == 5 then 0x06b6_b51f else
    if low == 6 then 0x9fbf_e4a5 else if low == 7 then 0xe8b8_d433 else if low == 8 then 0x7807_c9a2 else
    if low == 9 then 0x0f00_f934 else if low == 10 then 0x9609_a88e else if low == 11 then 0xe10e_9818 else
    if low == 12 then 0x7f6a_0dbb else if low == 13 then 0x086d_3d2d else if low == 14 then 0x9164_6c97 else
    0xe663_5c01
  }

  function TableRow5(low: bv8): bv32 {
    if low == 0 then 0x6b6b_51f4 else if low == 1 then 0x1c6c_6162 else if low == 2 then 0x8565_30d8 else
    if low == 3 then 0xf262_004e else if low == 4 then 0x6c06_95ed else if low == 5 then 0x1b01_a57b else
    if low == 6 then 0x8208_f4c1 else if low == 7 then 0xf50f_c457 else if low == 8 then 0x65b0_d9c6 else
    if low == 9 then 0x12b7_e950 else if low == 10 then 0x8bbe_b8ea else if low == 11 then 0xfcb9_887c else
    if low == 12 then 0x62dd_1ddf else if low == 13 then 0x15da_2d49 else if low == 14 then 0x8cd3_7cf3 else
    0xfbd4_4c65
  }

  function TableRow6(low: bv8): bv32 {
    if low == 0 then 0x4db2_6158 else if low == 1 then 0x3ab5_51ce else if low == 2 then 0xa3bc_0074 else
    if low == 3 then 0xd4bb_30e2 else if low == 4 then 0x4adf_a541 else if low == 5 then 0x3dd8_95d7 else
    if low == 6 then 0xa4d1_c46d else if low == 7 then 0xd3d6_f4fb else if low == 8 then 0x4369_e96a else
    if low == 9 then 0x346e_d9fc else if low == 10 then 0xad67_8846 else if low == 11 then 0xda60_b8d0 else
    if low == 12 then 0x4404_2d73 else if low == 13 then 0x3303_1de5 else if low == 14 then 0xaa0a_4c5f else
    0xdd0d_7cc9
  }

  function TableRow7(low: bv8): bv32 {
    if low == 0 then 0x5005_713c else if low == 1 then 0x2702_41aa else if low == 2 then 0xbe0b_1010 else
    if low == 3 then 0xc90c_2086 else if low == 4 then 0x5768_b525 else if low == 5 then 0x206f_85b3 else
    if low == 6 then 0xb966_d409 else if low == 7 then 0xce61_e49f else if low == 8 then 0x5ede_f90e else
    if low == 9 then 0x29d9_c998 else if low == 10 then 0xb0d0_9822 else if low == 11 then 0xc7d7_a8b4 else
    if low == 12 then 0x59b3_3d17 else if low == 13 then 0x2eb4_0d81 else if low == 14 then 0xb7bd_5c3b else
    0xc0ba_6cad
  }

  function TableRow8(low: bv8): bv32 {
    if low == 0 then 0xedb8_8320 else if low == 1 then 0x9abf_b3b6 else if low == 2 then 0x03b6_e20c else
    if low == 3 then 0x74b1_d29a else if low == 4 then 0xead5_4739 else if low == 5 then 0x9dd2_77af else
    if low == 6 then 0x04db_2615 else if low == 7 then 0x73dc_1683 else if low == 8 then 0xe363_0b12 else
    if low == 9 then 0x9464_3b84 else if low == 10 then 0x0d6d_6a3e else if low == 11 then 0x7a6a_5aa8 else
    if low == 12 then 0xe40e_cf0b else if low == 13 then 0x9309_ff9d else if low == 14 then 0x0a00_ae27 else
    0x7d07_9eb1
  }

  function TableRow9(low: bv8): bv32 {
    if low == 0 then 0xf00f_9344 else if low == 1 then 0x8708_a3d2 else if low == 2 then 0x1e01_f268 else
    if low == 3 then 0x6906_c2fe else if low == 4 then 0xf762_575d else if low == 5 then 0x8065_67cb else
    if low == 6 then 0x196c_3671 else if low == 7 then 0x6e6b_06e7 else if low == 8 then 0xfed4_1b76 else
    if low == 9 then 0x89d3_2be0 else if low == 10 then 0x10da_7a5a else if low == 11 then 0x67dd_4acc else
    if low == 12 then 0xf9b9_df6f else if low == 13 then 0x8ebe_eff9 else if low == 14 then 0x17b7_be43 else
    0x60b0_8ed5
  }

  function TableRowA(low: bv8): bv32 {
    if low == 0 then 0xd6d6_a3e8 else if low == 1 then 0xa1d1_937e else if low == 2 then 0x38d8_c2c4 else
    if low == 3 then 0x4fdf_f252 else if low == 4 then 0xd1bb_67f1 else if low == 5 then 0xa6bc_5767 else
    if low == 6 then 0x3fb5_06dd else if low == 7 then 0x48b2_364b else if low == 8 then 0xd80d_2bda else
    if low == 9 then 0xaf0a_1b4c else if low == 10 then 0x3603_4af6 else if low == 11 then 0x4104_7a60 else
    if low == 12 then 0xdf60_efc3 else if low == 13 then 0xa867_df55 else if low == 14 then 0x316e_8eef else
    0x4669_be79
  }

  function TableRowB(low: bv8): bv32 {
    if low == 0 then 0xcb61_b38c else if low == 1 then 0xbc66_831a else if low == 2 then 0x256f_d2a0 else
    if low == 3 then 0x5268_e236 else if low == 4 then 0xcc0c_7795 else if low == 5 then 0xbb0b_4703 else
    if low == 6 then 0x2202_16b9 else if low == 7 then 0x5505_262f else if low == 8 then 0xc5ba_3bbe else
    if low == 9 then 0xb2bd_0b28 else if low == 10 then 0x2bb4_5a92 else if low == 11 then 0x5cb3_6a04 else
    if low == 12 then 0xc2d7_ffa7 else if low == 13 then 0xb5d0_cf31 else if low == 14 then 0x2cd9_9e8b else
    0x5bde_ae1d
  }

  function TableRowC(low: bv8): bv32 {
    if low == 0 then 0x9b64_c2b0 else if low == 1 then 0xec63_f226 else if low == 2 then 0x756a_a39c else
    if low == 3 then 0x026d_930a else if low == 4 then 0x9c09_06a9 else if low == 5 then 0xeb0e_363f else
    if low == 6 then 0x7207_6785 else if low == 7 then 0x0500_5713 else if low == 8 then 0x95bf_4a82 else
    if low == 9 then 0xe2b8_7a14 else if low == 10 then 0x7bb1_2bae else if low == 11 then 0x0cb6_1b38 else
    if low == 12 then 0x92d2_8e9b else if low == 13 then 0xe5d5_be0d else if low == 14 then 0x7cdc_efb7 else
    0x0bdb_df21
  }

  function TableRowD(low: bv8): bv32 {
    if low == 0 then 0x86d3_d2d4 else if low == 1 then 0xf1d4_e242 else if low == 2 then 0x68dd_b3f8 else
    if low == 3 then 0x1fda_836e else if low == 4 then 0x81be_16cd else if low == 5 then 0xf6b9_265b else
    if low == 6 then 0x6fb0_77e1 else if low == 7 then 0x18b7_4777 else if low == 8 then 0x8808_5ae6 else
    if low == 9 then 0xff0f_6a70 else if low == 10 then 0x6606_3bca else if low == 11 then 0x1101_0b5c else
    if low == 12 then 0x8f65_9eff else if low == 13 then 0xf862_ae69 else if low == 14 then 0x616b_ffd3 else
    0x166c_cf45
  }

  function TableRowE(low: bv8): bv32 {
    if low == 0 then 0xa00a_e278 else if low == 1 then 0xd70d_d2ee else if low == 2 then 0x4e04_8354 else
    if low == 3 then 0x3903_b3c2 else if low == 4 then 0xa767_2661 else if low == 5 then 0xd060_16f7 else
    if low == 6 then 0x4969_474d else if low == 7 then 0x3e6e_77db else if low == 8 then 0xaed1_6a4a else
    if low == 9 then 0xd9d6_5adc else if low == 10 then 0x40df_0b66 else if low == 11 then 0x37d8_3bf0 else
    if low == 12 then 0xa9bc_ae53 else if low == 13 then 0xdebb_9ec5 else if low == 14 then 0x47b2_cf7f else
    0x30b5_ffe9
  }

  function TableRowF(low: bv8): bv32 {
    if low == 0 then 0xbdbd_f21c else if low == 1 then 0xcaba_c28a else if low == 2 then 0x53b3_9330 else
    if low == 3 then 0x24b4_a3a6 else if low == 4 then 0xbad0_3605 else if low == 5 then 0xcdd7_0693 else
    if low == 6 then 0x54de_5729 else if low == 7 then 0x23d9_67bf else if low == 8 then 0xb366_7a2e else
    if low == 9 then 0xc461_4ab8 else if low == 10 then 0x5d68_1b02 else if low == 11 then 0x2a6f_2b94 else
    if low == 12 then 0xb40b_be37 else if low == 13 then 0xc30c_8ea1 else if low == 14 then 0x5a05_df1b else
    0x2d02_ef8d
  }

  /** Entry i of crc32_table. */
  function Table(i: bv8): bv32 {
    var low := i & 0xf;
    var high := i >> 4;
    if high == 0 then TableRow0(low) else if high == 1 then TableRow1(low) else
    if high == 2 then TableRow2(low) else if high == 3 then TableRow3(low) else
    if high == 4 then TableRow4(low) else if high == 5 then TableRow5(low) else
    if high == 6 then TableRow6(low) else if high == 7 then TableRow7(low) else
    if high == 8 then TableRow8(low) else if high == 9 then TableRow9(low) else
    if high == 10 then TableRowA(low) else if high == 11 then TableRowB(low) else
    if high == 12 then TableRowC(low) else if high == 13 then TableRowD(low) else
    if high == 14 then TableRowE(low) else TableRowF(low)
  }

  /** Eight steps: what a byte of zeros does to the register. */
  function Step8(c: bv32): bv32 {
    Step(Step(Step(Step(Step(Step(Step(Step(c))))))))
  }

  lemma Row0Right(low: bv8)
    requires low < 16
    ensures TableRow0(low) == Step8((0 + low) as bv32)
  {
  }

  lemma Row1Right(low: bv8)
    requires low < 16
    ensures TableRow1(low) == Step8((16 + low) as bv32)
  {
  }

  lemma Row2Right(low: bv8)
    requires low < 16
    ensures TableRow2(low) == Step8((32 + low) as bv32)
  {
  }

  lemma Row3Right(low: bv8)
    requires low < 16
    ensures TableRow3(low) == Step8((48 + low) as bv32)
  {
  }

  lemma Row4Right(low: bv8)
    requires low < 16
    ensures TableRow4(low) == Step8((64 + low) as bv32)
  {
  }

  lemma Row5Right(low: bv8)
    requires low < 16
    ensures TableRow5(low) == Step8((80 + low) as bv32)
  {
  }

  lemma Row6Right(low: bv8)
    requires low < 16
    ensures TableRow6(low) == Step8((96 + low) as bv32)
  {
  }

  lemma Row7Right(low: bv8)
    requires low < 16
    ensures TableRow7(low) == Step8((112 + low) as bv32)
  {
  }

  lemma Row8Right(low: bv8)
    requires low < 16
    ensures TableRow8(low) == Step8((128 + low) as bv32)
  {
  }

  lemma Row9Right(low: bv8)
    requires low < 16
    ensures TableRow9(low) == Step8((144 + low) as bv32)
  {
  }

  lemma RowARight(low: bv8)
    requires low < 16
    ensures TableRowA(low) == Step8((160 + low) as bv32)
  {
  }

  lemma RowBRight(low: bv8)
    requires low < 16
    ensures TableRowB(low) == Step8((176 + low) as bv32)
  {
  }

  lemma RowCRight(low: bv8)
    requires low < 16
    ensures TableRowC(low) == Step8((192 + low) as bv32)
  {
  }

  lemma RowDRight(low: bv8)
    requires low < 16
    ensures TableRowD(low) == Step8((208 + low) as bv32)
  {
  }

  lemma RowERight(low: bv8)
    requires low < 16
    ensures TableRowE(low) == Step8((224 + low) as bv32)
  {
  }

  lemma RowFRight(low: bv8)
    requires low < 16
    ensures TableRowF(low) == Step8((240 + low) as bv32)
  {
  }

  /** All 256 entries of the table are right. */
  lemma TableRight(i: bv8)
    ensures Table(i) == Step8(i as bv32)
  {
    var low, high := i & 0xf, i >> 4;
    assert low < 16 && high < 16 && i == (high << 4) + low;
    if high == 0 { Row0Right(low); }
    else if high == 1 { Row1Right(low); }
    else if high == 2 { Row2Right(low); }
    else if high == 3 { Row3Right(low); }
    else if high == 4 { Row4Right(low); }
    else if high == 5 { Row5Right(low); }
    else if high == 6 { Row6Right(low); }
    else if high == 7 { Row7Right(low); }
    else if high == 8 { Row8Right(low); }
    else if high == 9 { Row9Right(low); }
    else if high == 10 { RowARight(low); }
    else if high == 11 { RowBRight(low); }
    else if high == 12 { RowCRight(low); }
    else if high == 13 { RowDRight(low); }
    else if high == 14 { RowERight(low); }
    else { RowFRight(low); }
  }

  // ---------- linearity ----------

  function Iterate<T>(f: T -> T, c: T, n: nat): T
    decreases n
  {
    if n == 0 then c else Iterate(f, f(c), n - 1)
  }

  ghost predicate Distributes<T(!new)>(f: T -> T, op: (T, T) -> T) {
    forall a, b :: f(op(a, b)) == op(f(a), f(b))
  }

  lemma {:induction false} IterateDistributes<T(!new)>(f: T -> T, op: (T, T) -> T, a: T, b: T, n: nat)
    requires Distributes(f, op)
    ensures Iterate(f, op(a, b), n) == op(Iterate(f, a, n), Iterate(f, b, n))
    decreases n
  {
    if n > 0 { IterateDistributes(f, op, f(a), f(b), n - 1); }
  }

  lemma {:induction false} IterateAdd<T>(f: T -> T, c: T, m: nat, n: nat)
    ensures Iterate(f, c, m + n) == Iterate(f, Iterate(f, c, m), n)
    decreases m
  {
    if m > 0 { IterateAdd(f, f(c), m - 1, n); }
  }

  lemma IterateEight<T>(f: T -> T, c: T)
    ensures Iterate(f, c, 8) == f(f(f(f(f(f(f(f(c))))))))
  {
  }

  function Xor(a: bv32, b: bv32): bv32 {
    a ^ b
  }

  lemma ShiftXor(a: bv32, b: bv32)
    ensures (a ^ b) >> 1 == (a >> 1) ^ (b >> 1)
  {
  }

  lemma LowXor(a: bv32, b: bv32)
    ensures (a ^ b) & 1 == (a & 1) ^ (b & 1)
    ensures a & 1 == 0 || a & 1 == 1
  {
  }

  lemma XorMoves(x: bv32, y: bv32, p: bv32)
    ensures (x ^ p) ^ (y ^ p) == x ^ y
    ensures (x ^ p) ^ y == (x ^ y) ^ p
    ensures x ^ (y ^ p) == (x ^ y) ^ p
  {
  }

  lemma StepXor(a: bv32, b: bv32)
    ensures Step(a ^ b) == Step(a) ^ Step(b)
  {
    ShiftXor(a, b);
    LowXor(a, b);
    LowXor(b, a);
    XorMoves(a >> 1, b >> 1, POLY);
  }

  lemma StepLinear()
    ensures Distributes(Step, Xor)
  {
    forall a, b
      ensures Step(Xor(a, b)) == Xor(Step(a), Step(b))
    {
      StepXor(a, b);
    }
  }

  // ---------- a byte at a time ----------

  ghost predicate IsXor(c: bv32, a: bv32, b: bv32) {
    c == Xor(a, b)
  }

  lemma SplitRegister(c: bv32, low: bv32)
    requires c & 0xff == low
    ensures IsXor(c, c & 0xffff_ff00, low)
  {
  }

  lemma StepsHigh(c: bv32)
    ensures Iterate(Step, c & 0xffff_ff00, 8) == c >> 8
  {
  }

  lemma StepsLow(i: bv8)
    ensures Iterate(Step, i as bv32, 8) == Table(i)
  {
    IterateEight(Step, i as bv32);
    TableRight(i);
  }

  lemma IterateParts<T(!new)>(f: T -> T, op: (T, T) -> T, c: T, a: T, b: T, n: nat)
    requires Distributes(f, op) && c == op(a, b)
    ensures Iterate(f, c, n) == op(Iterate(f, a, n), Iterate(f, b, n))
  {
    IterateDistributes(f, op, a, b, n);
  }

  lemma LowByteApart(c: bv32, low: bv32, t: bv32)
    requires c & 0xff == low && t == Iterate(Step, low, 8)
    ensures Iterate(Step, c, 8) == Xor(c >> 8, t)
  {
    StepLinear();
    SplitRegister(c, low);
    StepsHigh(c);
    IterateParts(Step, Xor, c, c & 0xffff_ff00, low, 8);
  }

  lemma LookupStep(c: bv32, i: bv8)
    requires c & 0xff == i as bv32
    ensures Iterate(Step, c, 8) == (c >> 8) ^ Table(i)
  {
    StepsLow(i);
    LowByteApart(c, i as bv32, Table(i));
  }

  // ---------- the bits of a byte ----------

  /** Adds x to the register and reduces, for each x. */
  function AddAndReduce<T>(f: T -> T, op: (T, T) -> T, c: T, xs: seq<T>): T
    decreases |xs|
  {
    if xs == [] then c else f(op(AddAndReduce(f, op, c, xs[..|xs| - 1]), xs[|xs| - 1]))
  }

  ghost predicate ReduceTo<T(!new)>(f: T -> T, ys: seq<T>, xs: seq<T>) {
    |xs| == |ys| && forall i :: 0 <= i < |xs| ==> Iterate(f, ys[i], i) == xs[i]
  }

  /** zs are the sums of the starts of ys. */
  ghost predicate AddUp<T(!new)>(op: (T, T) -> T, ys: seq<T>, zs: seq<T>) {
    |zs| == |ys| + 1 && forall i :: 0 <= i < |ys| ==> zs[i + 1] == op(zs[i], ys[i])
  }

  /** What is added late can be added at once, in a place from which it reduces to the same. */
  lemma {:induction false} AddAndReduceIsIterate<T(!new)>(f: T -> T, op: (T, T) -> T, xs: seq<T>, ys: seq<T>,
                                                   zs: seq<T>)
    requires Distributes(f, op) && ReduceTo(f, ys, xs) && AddUp(op, ys, zs)
    ensures AddAndReduce(f, op, zs[0], xs) == Iterate(f, zs[|xs|], |xs|)
    decreases |xs|
  {
    if xs != [] {
      var n := |xs| - 1;
      AddAndReduceIsIterate(f, op, xs[..n], ys[..n], zs[..n + 1]);
      IterateDistributes(f, op, zs[n], ys[n], n);
      IterateAdd(f, zs[n + 1], n, 1);
    }
  }

  function BitValue(bit: bool): bv32 {
    if bit then 1 else 0
  }

  function BitValues(bits: seq<bool>): (v: seq<bv32>)
    ensures |v| == |bits|
  {
    seq(|bits|, i requires 0 <= i < |bits| => BitValue(bits[i]))
  }

  lemma BitFlag(bit: bool, x: bv32)
    requires x == BitValue(bit)
    ensures x & 1 == x && bit == (x == 1)
  {
  }

  /** Adding a bit to the register touches its lowest bit only. */
  lemma BitAdded(c: bv32, x: bv32, d: bv32, h: bv32)
    requires x & 1 == x && d == c ^ x && c >> 1 == h
    ensures d >> 1 == h && d & 1 == (c & 1) ^ x
  {
  }

  lemma LowestFlipped(l: bv32, x: bv32, k: bv32)
    requires l & 1 == l && x & 1 == x && k == l ^ x
    ensures k == 1 <==> ((l == 1) != (x == 1))
  {
  }

  lemma OneBit(c: bv32)
    ensures (c & 1) & 1 == c & 1
  {
  }

  lemma ReducedAlike(c: bv32, bit: bool, d: bv32, h: bv32, l: bv32, k: bv32)
    requires c >> 1 == h && c & 1 == l && d >> 1 == h && d & 1 == k
    requires (k == 1) == ((l == 1) != bit)
    ensures FeedBit(c, bit) == Step(d)
  {
  }

  lemma FeedParts(c: bv32, bit: bool, x: bv32, d: bv32, h: bv32, l: bv32, k: bv32)
    requires x == BitValue(bit) && d == Xor(c, x) && h == c >> 1 && l == c & 1 && k == Xor(l, x)
    ensures FeedBit(c, bit) == Step(d)
  {
    BitFlag(bit, x);
    BitAdded(c, x, d, h);
    OneBit(c);
    LowestFlipped(l, x, k);
    ReducedAlike(c, bit, d, h, l, k);
  }

  lemma FeedIsStep(c: bv32, bit: bool)
    ensures FeedBit(c, bit) == Step(Xor(c, BitValue(bit)))
  {
    var x := BitValue(bit);
    FeedParts(c, bit, x, Xor(c, x), c >> 1, c & 1, Xor(c & 1, x));
  }

  lemma {:induction false} DivideAddsAndReduces(c: bv32, bits: seq<bool>)
    ensures Divide(c, bits) == AddAndReduce(Step, Xor, c, BitValues(bits))
    decreases |bits|
  {
    if bits != [] {
      var n := |bits| - 1;
      DivideAddsAndReduces(c, bits[..n]);
      FeedIsStep(Divide(c, bits[..n]), bits[n]);
      assert BitValues(bits)[..n] == BitValues(bits[..n]);
    }
  }

  function BitMask(i: nat): byte {
    if i == 0 then 1 else BitMask(i - 1) << 1
  }

  /** The mask of the lowest i bits. */
  function LowMask(i: nat): byte {
    if i == 0 then 0 else LowMask(i - 1) | BitMask(i - 1)
  }

  lemma AllMasks()
    ensures BitMask(0) == 0x01 && BitMask(1) == 0x02 && BitMask(2) == 0x04 && BitMask(3) == 0x08
    ensures BitMask(4) == 0x10 && BitMask(5) == 0x20 && BitMask(6) == 0x40 && BitMask(7) == 0x80
    ensures LowMask(0) == 0x00 && LowMask(1) == 0x01 && LowMask(2) == 0x03 && LowMask(3) == 0x07
    ensures LowMask(4) == 0x0f && LowMask(5) == 0x1f && LowMask(6) == 0x3f && LowMask(7) == 0x7f && LowMask(8) == 0xff
  {
  }

  lemma MasksApart(i: nat)
    requires i < 8
    ensures LowMask(i) & BitMask(i) == 0 && LowMask(i + 1) == LowMask(i) | BitMask(i)
  {
    AllMasks();
  }

  function Masked(b: byte, m: byte): bv32 {
    (b & m) as bv32
  }

  function AddMasked(c: bv32, b: byte, m: byte): bv32 {
    c ^ ((b & m) as bv32)
  }

  /** The bits of a byte, each in its place. */
  function Places(b: byte): (p: seq<bv32>)
    ensures |p| == 8
  {
    seq(8, i requires 0 <= i < 8 => Masked(b, BitMask(i)))
  }

  /** The register with the lowest bits of a byte added, one more each time. */
  function PlacesAdded(c: bv32, b: byte): (z: seq<bv32>)
    ensures |z| == 9
  {
    seq(9, i requires 0 <= i < 9 => AddMasked(c, b, LowMask(i)))
  }

  lemma UnitsReduce()
    ensures Iterate(Step, 1, 0) == Iterate(Step, 2, 1) == Iterate(Step, 4, 2) == Iterate(Step, 8, 3) == 1
    ensures Iterate(Step, 16, 4) == Iterate(Step, 32, 5) == Iterate(Step, 64, 6) == Iterate(Step, 128, 7) == 1
  {
  }

  lemma {:induction false} ZeroReduces(n: nat)
    ensures Iterate(Step, 0, n) == 0
  {
    assert Step(0) == 0;
    if n > 0 { ZeroReduces(n - 1); }
  }

  lemma PlacesReduce(b: byte, i: nat)
    requires i < 8
    ensures Iterate(Step, Masked(b, BitMask(i)), i) == BitValue(Bits(b)[i])
  {
    UnitsReduce();
    ZeroReduces(i);
    AllMasks();
    BitOrNone(b, BitMask(i));
  }

  lemma BitOrNone(b: byte, m: byte)
    requires m & (m - 1) == 0
    ensures b & m == m || b & m == 0
  {
  }

  lemma PlacesReduceToBits(b: byte)
    ensures ReduceTo(Step, Places(b), BitValues(Bits(b)))
  {
    forall i | 0 <= i < 8
      ensures Iterate(Step, Places(b)[i], i) == BitValues(Bits(b))[i]
    {
      PlacesReduce(b, i);
    }
  }

  lemma MasksAdd(c: bv32, b: byte, m: byte, p: byte, n: byte)
    requires m & p == 0 && n == m | p
    ensures AddMasked(c, b, n) == Xor(AddMasked(c, b, m), Masked(b, p))
  {
  }

  lemma PlacesAddUp(c: bv32, b: byte)
    ensures AddUp(Xor, Places(b), PlacesAdded(c, b))
  {
    forall i | 0 <= i < 8
      ensures AddMasked(c, b, LowMask(i + 1)) == Xor(AddMasked(c, b, LowMask(i)), Masked(b, BitMask(i)))
    {
      MasksApart(i);
      MasksAdd(c, b, LowMask(i), BitMask(i), LowMask(i + 1));
    }
  }

  lemma AllPlaces(c: bv32, b: byte)
    ensures PlacesAdded(c, b)[0] == c && PlacesAdded(c, b)[8] == c ^ (b as bv32)
  {
  }

  /** The eight bits of a byte may be added to the register at once. */
  lemma FeedByte(c: bv32, b: byte)
    ensures Divide(c, Bits(b)) == Iterate(Step, c ^ (b as bv32), 8)
  {
    PlacesReduceToBits(b);
    PlacesAddUp(c, b);
    AllPlaces(c, b);
    StepLinear();
    DivideAddsAndReduces(c, Bits(b));
    AddAndReduceIsIterate(Step, Xor, BitValues(Bits(b)), Places(b), PlacesAdded(c, b));
  }

  lemma ByteIndex(c: bv32, b: byte)
    ensures (c ^ (b as bv32)) >> 8 == c >> 8
    ensures (c ^ (b as bv32)) & 0xff == (((c ^ (b as bv32)) & 0xff) as bv8) as bv32
  {
  }

  /** One round of the table-driven loop divides in one byte. */
  lemma RoundDividesByte(c: bv32, b: byte)
    ensures Divide(c, Bits(b)) == (c >> 8) ^ Table(((c ^ (b as bv32)) & 0xff) as bv8)
  {
    FeedByte(c, b);
    ByteIndex(c, b);
    LookupStep(c ^ (b as bv32), ((c ^ (b as bv32)) & 0xff) as bv8);
  }

  lemma {:induction false} FoldAppend<S, B>(f: (S, B) -> S, c: S, a: seq<B>, b: seq<B>)
    ensures Fold(f, c, a + b) == Fold(f, Fold(f, c, a), b)
    decreases |b|
  {
    if b == [] {
      assert a + b == a;
    } else {
      FoldAppend(f, c, a, b[..|b| - 1]);
      assert (a + b)[..|a + b| - 1] == a + b[..|b| - 1];
    }
  }

  /** d comes of folding over the parts of the elements of s. */
  ghost predicate FoldsTo<S, A, B>(f: (S, B) -> S, parts: A -> seq<B>, c: S, s: seq<A>, d: S) {
    Fold(f, c, Flatten(parts, s)) == d
  }

  /** Folding over the parts of one more element. */
  lemma FoldOne<S, A, B>(f: (S, B) -> S, parts: A -> seq<B>, c: S, s: seq<A>, x: A, d: S)
    requires FoldsTo(f, parts, c, s, d)
    ensures FoldsTo(f, parts, c, s + [x], Fold(f, d, parts(x)))
  {
    assert (s + [x])[..|s|] == s;
    FoldAppend(f, c, Flatten(parts, s), parts(x));
  }

  lemma FoldFour<S, A, B>(f: (S, B) -> S, parts: A -> seq<B>, c: S, s: seq<A>, x0: A, x1: A, x2: A, x3: A,
                          d0: S, d1: S, d2: S, d3: S, d4: S)
    requires FoldsTo(f, parts, c, s, d0)
    requires Fold(f, d0, parts(x0)) == d1 && Fold(f, d1, parts(x1)) == d2
    requires Fold(f, d2, parts(x2)) == d3 && Fold(f, d3, parts(x3)) == d4
    ensures FoldsTo(f, parts, c, s + [x0, x1, x2, x3], d4)
  {
    FoldOne(f, parts, c, s, x0, d0);
    FoldOne(f, parts, c, s + [x0], x1, d1);
    FoldOne(f, parts, c, s + [x0] + [x1], x2, d2);
    FoldOne(f, parts, c, s + [x0] + [x1] + [x2], x3, d3);
    assert s + [x0, x1, x2, x3] == s + [x0] + [x1] + [x2] + [x3];
  }

  // ---------- a message with its CRC ----------

  /** The bytes of a stored CRC, the lowest first. */
  function Stored(c: bv32): seq<byte> {
    [(c & 0xff) as bv8, ((c >> 8) & 0xff) as bv8, ((c >> 16) & 0xff) as bv8, (c >> 24) as bv8]
  }

  lemma FeedByteLow(c: bv32, b: byte, low: bv32, t: bv32)
    requires (c ^ (b as bv32)) & 0xff == low && t == Iterate(Step, low, 8)
    ensures Divide(c, Bits(b)) == (c >> 8) ^ t
  {
    FeedByte(c, b);
    ByteIndex(c, b);
    LowByteApart(c ^ (b as bv32), low, t);
  }

  /** One byte of a stored CRC cancels the byte of the register that it meets. */
  lemma CancelByte(c: bv32, b: byte, low: bv32, t: bv32, q: bv32)
    requires (c ^ (b as bv32)) & 0xff == low && t == Iterate(Step, low, 8) && (c >> 8) ^ t == q
    ensures Divide(c, Bits(b)) == q
  {
    FeedByteLow(c, b, low, t);
  }

  lemma FourEntries()
    ensures Iterate(Step, 0xff, 8) == 0x2d02_ef8d && Iterate(Step, 114, 8) == 0xbe0b_1010
    ensures Iterate(Step, 0, 8) == 0 && Iterate(Step, 237, 8) == 0xdebb_9ec5
  {
  }

  lemma FirstBits(c: bv32, r: bv32, at: bv32, b: byte, q: bv32)
    requires r == c ^ 0xffff_ffff && at == r && b == (c & 0xff) as bv8 && q == (r >> 8) ^ 0x2d02_ef8d
    ensures (at ^ (b as bv32)) & 0xff == 0xff && (at >> 8) ^ 0x2d02_ef8d == q
  {
  }

  lemma SecondBits(c: bv32, r: bv32, at: bv32, b: byte, q: bv32)
    requires r == c ^ 0xffff_ffff && at == (r >> 8) ^ 0x2d02_ef8d && b == ((c >> 8) & 0xff) as bv8
    requires q == (r >> 16) ^ 0xbe26_12ff
    ensures (at ^ (b as bv32)) & 0xff == 114 && (at >> 8) ^ 0xbe0b_1010 == q
  {
    SecondLow(c, r, at, b);
    SecondShift(r, at, q);
  }

  lemma SecondLow(c: bv32, r: bv32, at: bv32, b: byte)
    requires r == c ^ 0xffff_ffff && at == (r >> 8) ^ 0x2d02_ef8d && b == ((c >> 8) & 0xff) as bv8
    ensures (at ^ (b as bv32)) & 0xff == 114
  {
  }

  lemma SecondShift(r: bv32, at: bv32, q: bv32)
    requires at == (r >> 8) ^ 0x2d02_ef8d && q == (r >> 16) ^ 0xbe26_12ff
    ensures (at >> 8) ^ 0xbe0b_1010 == q
  {
  }

  lemma ThirdBits(c: bv32, r: bv32, at: bv32, b: byte, q: bv32)
    requires r == c ^ 0xffff_ffff && at == (r >> 16) ^ 0xbe26_12ff && b == ((c >> 16) & 0xff) as bv8
    requires q == (r >> 24) ^ 0x00be_2612
    ensures (at ^ (b as bv32)) & 0xff == 0 && (at >> 8) ^ 0 == q
  {
  }

  lemma FourthBits(c: bv32, r: bv32, at: bv32, b: byte, q: bv32)
    requires r == c ^ 0xffff_ffff && at == (r >> 24) ^ 0x00be_2612 && b == (c >> 24) as bv8 && q == 0xdebb_20e3
    ensures (at ^ (b as bv32)) & 0xff == 237 && (at >> 8) ^ 0xdebb_9ec5 == q
  {
  }

  lemma FirstStored(c: bv32, r: bv32, at: bv32, b: byte, q: bv32)
    requires r == c ^ 0xffff_ffff && at == r && b == (c & 0xff) as bv8 && q == (r >> 8) ^ 0x2d02_ef8d
    ensures Divide(at, Bits(b)) == q
  {
    FourEntries();
    FirstBits(c, r, at, b, q);
    CancelByte(at, b, 0xff, 0x2d02_ef8d, q);
  }

  lemma SecondStored(c: bv32, r: bv32, at: bv32, b: byte, q: bv32)
    requires r == c ^ 0xffff_ffff && at == (r >> 8) ^ 0x2d02_ef8d && b == ((c >> 8) & 0xff) as bv8
    requires q == (r >> 16) ^ 0xbe26_12ff
    ensures Divide(at, Bits(b)) == q
  {
    FourEntries();
    SecondBits(c, r, at, b, q);
    CancelByte(at, b, 114, 0xbe0b_1010, q);
  }

  lemma ThirdStored(c: bv32, r: bv32, at: bv32, b: byte, q: bv32)
    requires r == c ^ 0xffff_ffff && at == (r >> 16) ^ 0xbe26_12ff && b == ((c >> 16) & 0xff) as bv8
    requires q == (r >> 24) ^ 0x00be_2612
    ensures Divide(at, Bits(b)) == q
  {
    FourEntries();
    ThirdBits(c, r, at, b, q);
    CancelByte(at, b, 0, 0, q);
  }

  lemma FourthStored(c: bv32, r: bv32, at: bv32, b: byte, q: bv32)
    requires r == c ^ 0xffff_ffff && at == (r >> 24) ^ 0x00be_2612 && b == (c >> 24) as bv8 && q == 0xdebb_20e3
    ensures Divide(at, Bits(b)) == q
  {
    FourEntries();
    FourthBits(c, r, at, b, q);
    CancelByte(at, b, 237, 0xdebb_9ec5, q);
  }

  /** The bytes of a stored CRC and the registers after them. */
  lemma StoredDivides(c: bv32, r: bv32, b0: byte, b1: byte, b2: byte, b3: byte, r1: bv32, r2: bv32, r3: bv32, r4: bv32)
    requires r == c ^ 0xffff_ffff
    requires b0 == (c & 0xff) as bv8 && b1 == ((c >> 8) & 0xff) as bv8
    requires b2 == ((c >> 16) & 0xff) as bv8 && b3 == (c >> 24) as bv8
    requires r1 == (r >> 8) ^ 0x2d02_ef8d && r2 == (r >> 16) ^ 0xbe26_12ff
    requires r3 == (r >> 24) ^ 0x00be_2612 && r4 == 0xdebb_20e3
    ensures Divide(r, Bits(b0)) == r1 && Divide(r1, Bits(b1)) == r2
    ensures Divide(r2, Bits(b2)) == r3 && Divide(r3, Bits(b3)) == r4
  {
    FirstStored(c, r, r, b0, r1);
    SecondStored(c, r, r1, b1, r2);
    ThirdStored(c, r, r2, b2, r3);
    FourthStored(c, r, r3, b3, r4);
  }

  lemma MessageWithFour(s: seq<byte>, b0: byte, b1: byte, b2: byte, b3: byte,
                        r: bv32, r1: bv32, r2: bv32, r3: bv32, r4: bv32)
    requires Divide(0xffff_ffff, MessageBits(s)) == r
    requires Divide(r, Bits(b0)) == r1 && Divide(r1, Bits(b1)) == r2
    requires Divide(r2, Bits(b2)) == r3 && Divide(r3, Bits(b3)) == r4
    ensures Divide(0xffff_ffff, MessageBits(s + [b0, b1, b2, b3])) == r4
  {
    FoldFour(FeedBit, Bits, 0xffff_ffff, s, b0, b1, b2, b3, r, r1, r2, r3, r4);
  }

  lemma StoredCancels(s: seq<byte>, c: bv32, r: bv32, b0: byte, b1: byte, b2: byte, b3: byte)
    requires Divide(0xffff_ffff, MessageBits(s)) == r && r == c ^ 0xffff_ffff
    requires b0 == (c & 0xff) as bv8 && b1 == ((c >> 8) & 0xff) as bv8
    requires b2 == ((c >> 16) & 0xff) as bv8 && b3 == (c >> 24) as bv8
    ensures Divide(0xffff_ffff, MessageBits(s + [b0, b1, b2, b3])) == 0xdebb_20e3
  {
    var r1, r2, r3 := (r >> 8) ^ 0x2d02_ef8d, (r >> 16) ^ 0xbe26_12ff, (r >> 24) ^ 0x00be_2612;
    StoredDivides(c, r, b0, b1, b2, b3, r1, r2, r3, 0xdebb_20e3);
    MessageWithFour(s, b0, b1, b2, b3, r, r1, r2, r3, 0xdebb_20e3);
  }

  lemma StoredResidue(s: seq<byte>, c: bv32, r: bv32)
    requires Divide(0xffff_ffff, MessageBits(s)) == r && r == c ^ 0xffff_ffff
    ensures Divide(0xffff_ffff, MessageBits(s + Stored(c))) == 0xdebb_20e3
  {
    StoredCancels(s, c, r, (c & 0xff) as bv8, ((c >> 8) & 0xff) as bv8, ((c >> 16) & 0xff) as bv8, (c >> 24) as bv8);
  }

  lemma ResidueOf(s: seq<byte>, c: bv32, r: bv32)
    requires Divide(0xffff_ffff, MessageBits(s)) == r && c == Xor(r, 0xffff_ffff)
    ensures Divide(0xffff_ffff, MessageBits(s + Stored(c))) == 0xdebb_20e3
  {
    XorTwice(r);
    StoredResidue(s, c, r);
  }

  lemma CrcIs(s: seq<byte>, r: bv32)
    requires Divide(0xffff_ffff, MessageBits(s)) == r
    ensures Crc(s) == Xor(r, 0xffff_ffff)
  {
  }

  /** A message followed by its CRC always has the same CRC. */
  lemma CrcOfMessageWithCrc(s: seq<byte>)
    ensures Crc(s + Stored(Crc(s))) == 0x2144_df1c
  {
    var r := Divide(0xffff_ffff, MessageBits(s));
    CrcIs(s, r);
    ResidueOf(s, Crc(s), r);
    CrcIs(s + Stored(Crc(s)), 0xdebb_20e3);
  }

  lemma XorTwice(r: bv32)
    ensures r == (r ^ 0xffff_ffff) ^ 0xffff_ffff
  {
  }

  // ---------- a known value ----------

  lemma Looked(c: bv32, b: byte, i: bv8, t: bv32, c': bv32)
    requires ((c ^ (b as bv32)) & 0xff) as bv8 == i && Table(i) == t && (c >> 8) ^ t == c'
    ensures Divide(c, Bits(b)) == c'
  {
    RoundDividesByte(c, b);
  }

  lemma OneMoreByte(s: seq<byte>, b: byte, c: bv32, c': bv32)
    requires Divide(0xffff_ffff, MessageBits(s)) == c && Divide(c, Bits(b)) == c'
    ensures Divide(0xffff_ffff, MessageBits(s + [b])) == c'
  {
    FoldOne(FeedBit, Bits, 0xffff_ffff, s, b, c);
  }

  lemma Digit1()
    ensures Divide(0xffff_ffff, Bits(0x31)) == 0x7c23_1048
  {
    Looked(0xffff_ffff, 0x31, 0xce, 0x7cdc_efb7, 0x7c23_1048);
  }

  lemma Digit2()
    ensures Divide(0x7c23_1048, Bits(0x32)) == 0xb0ac_bb32
  {
    Looked(0x7c23_1048, 0x32, 0x7a, 0xb0d0_9822, 0xb0ac_bb32);
  }

  lemma Digit3()
    ensures Divide(0xb0ac_bb32, Bits(0x33)) == 0x77b7_9c2d
  {
    Looked(0xb0ac_bb32, 0x33, 0x01, 0x7707_3096, 0x77b7_9c2d);
  }

  lemma Digit4()
    ensures Divide(0x77b7_9c2d, Bits(0x34)) == 0x641c_1f5c
  {
    Looked(0x77b7_9c2d, 0x34, 0x19, 0x646b_a8c0, 0x641c_1f5c);
  }

  lemma Digit5()
    ensures Divide(0x641c_1f5c, Bits(0x35)) == 0x340a_c5e3
  {
    Looked(0x641c_1f5c, 0x35, 0x69, 0x346e_d9fc, 0x340a_c5e3);
  }

  lemma Digit6()
    ensures Divide(0x340a_c5e3, Bits(0x36)) == 0xf68d_2c9e
  {
    Looked(0x340a_c5e3, 0x36, 0xd5, 0xf6b9_265b, 0xf68d_2c9e);
  }

  lemma Digit7()
    ensures Divide(0xf68d_2c9e, Bits(0x37)) == 0xaffc_9660
  {
    Looked(0xf68d_2c9e, 0x37, 0xa9, 0xaf0a_1b4c, 0xaffc_9660);
  }

  lemma Digit8()
    ensures Divide(0xaffc_9660, Bits(0x38)) == 0x651f_2550
  {
    Looked(0xaffc_9660, 0x38, 0x58, 0x65b0_d9c6, 0x651f_2550);
  }

  lemma Digit9()
    ensures Divide(0x651f_2550, Bits(0x39)) == 0x340b_c6d9
  {
    Looked(0x651f_2550, 0x39, 0x69, 0x346e_d9fc, 0x340b_c6d9);
  }

  /** The CRC of the nine digits from 1 is the one that is given for checking. */
  lemma CheckValue()
    ensures Crc([0x31, 0x32, 0x33, 0x34, 0x35, 0x36, 0x37, 0x38, 0x39]) == 0xcbf4_3926
  {
    Digit1(); Digit2(); Digit3(); Digit4(); Digit5(); Digit6(); Digit7(); Digit8(); Digit9();
    var s: seq<byte> := [];
    OneMoreByte(s, 0x31, 0xffff_ffff, 0x7c23_1048);
    s := s + [0x31];
    OneMoreByte(s, 0x32, 0x7c23_1048, 0xb0ac_bb32);
    s := s + [0x32];
    OneMoreByte(s, 0x33, 0xb0ac_bb32, 0x77b7_9c2d);
    s := s + [0x33];
    OneMoreByte(s, 0x34, 0x77b7_9c2d, 0x641c_1f5c);
    s := s + [0x34];
    OneMoreByte(s, 0x35, 0x641c_1f5c, 0x340a_c5e3);
    s := s + [0x35];
    OneMoreByte(s, 0x36, 0x340a_c5e3, 0xf68d_2c9e);
    s := s + [0x36];
    OneMoreByte(s, 0x37, 0xf68d_2c9e, 0xaffc_9660);
    s := s + [0x37];
    OneMoreByte(s, 0x38, 0xaffc_9660, 0x651f_2550);
    s := s + [0x38];
    OneMoreByte(s, 0x39, 0x651f_2550, 0x340b_c6d9);
    s := s + [0x39];
    assert s == [0x31, 0x32, 0x33, 0x34, 0x35, 0x36, 0x37, 0x38, 0x39];
  }

  // ---------- crc32 ----------

  /** One round of the loop. */
  method Round(c: bv32, b: byte) returns (c': bv32)
    ensures c' == Divide(c, Bits(b))
  {
    RoundDividesByte(c, b);
    c' := (c >> 8) ^ Table(((c ^ (b as bv32)) & 0xff) as bv8);
  }

  method Compute(stream: array<byte>, len: nat) returns (crc: bv32)
    requires len <= stream.Length
    ensures crc == Crc(stream[..len])
  {
    crc := 0xffff_ffff;
    for i := 0 to len
      invariant crc == Divide(0xffff_ffff, MessageBits(stream[..i]))
    {
      assert stream[..i + 1] == stream[..i] + [stream[i]];
      FoldOne(FeedBit, Bits, 0xffff_ffff, stream[..i], stream[i], crc);
      crc := Round(crc, stream[i]);
    }
    crc := crc ^ 0xffff_ffff;
  }
}
