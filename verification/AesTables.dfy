/** The substitution tables of the block cipher and their algebraic meaning (sections 5.1.1 and 5.3.2 of FIPS 197). */
module AesTables {
  import opened Gf256

  /** Row `x` of the S-box, sixteen bytes packed into one literal with column 0 first. */
  function SboxRow(x: bv8): bv128 {
    if x == 0x0 then 0x637c777b_f26b6fc5_3001672b_fed7ab76
    else if x == 0x1 then 0xca82c97d_fa5947f0_add4a2af_9ca472c0
    else if x == 0x2 then 0xb7fd9326_363ff7cc_34a5e5f1_71d83115
    else if x == 0x3 then 0x04c723c3_1896059a_071280e2_eb27b275
    else if x == 0x4 then 0x09832c1a_1b6e5aa0_523bd6b3_29e32f84
    else if x == 0x5 then 0x53d100ed_20fcb15b_6acbbe39_4a4c58cf
    else if x == 0x6 then 0xd0efaafb_434d3385_45f9027f_503c9fa8
    else if x == 0x7 then 0x51a3408f_929d38f5_bcb6da21_10fff3d2
    else if x == 0x8 then 0xcd0c13ec_5f974417_c4a77e3d_645d1973
    else if x == 0x9 then 0x60814fdc_222a9088_46eeb814_de5e0bdb
    else if x == 0xa then 0xe0323a0a_4906245c_c2d3ac62_9195e479
    else if x == 0xb then 0xe7c8376d_8dd54ea9_6c56f4ea_657aae08
    else if x == 0xc then 0xba78252e_1ca6b4c6_e8dd741f_4bbd8b8a
    else if x == 0xd then 0x703eb566_4803f60e_613557b9_86c11d9e
    else if x == 0xe then 0xe1f89811_69d98e94_9b1e87e9_ce5528df
    else 0x8ca1890d_bfe64268_41992d0f_b054bb16
  }

  /** Row `x` of the inverse S-box, packed the same way. */
  function InvSboxRow(x: bv8): bv128 {
    if x == 0x0 then 0x52096ad5_3036a538_bf40a39e_81f3d7fb
    else if x == 0x1 then 0x7ce33982_9b2fff87_348e4344_c4dee9cb
    else if x == 0x2 then 0x547b9432_a6c2233d_ee4c950b_42fac34e
    else if x == 0x3 then 0x082ea166_28d924b2_765ba249_6d8bd125
    else if x == 0x4 then 0x72f8f664_86689816_d4a45ccc_5d65b692
    else if x == 0x5 then 0x6c704850_fdedb9da_5e154657_a78d9d84
    else if x == 0x6 then 0x90d8ab00_8cbcd30a_f7e45805_b8b34506
    else if x == 0x7 then 0xd02c1e8f_ca3f0f02_c1afbd03_01138a6b
    else if x == 0x8 then 0x3a911141_4f67dcea_97f2cfce_f0b4e673
    else if x == 0x9 then 0x96ac7422_e7ad3585_e2f937e8_1c75df6e
    else if x == 0xa then 0x47f11a71_1d29c589_6fb7620e_aa18be1b
    else if x == 0xb then 0xfc563e4b_c6d27920_9adbc0fe_78cd5af4
    else if x == 0xc then 0x1fdda833_8807c731_b1121059_2780ec5f
    else if x == 0xd then 0x60517fa9_19b54a0d_2de57a9f_93c99cef
    else if x == 0xe then 0xa0e03b4d_ae2af5b0_c8ebbb3c_83539961
    else 0x172b047e_ba77d626_e1691463_55210c7d
  }

  /** Column `b & 15` of a packed row. */
  function Column(row: bv128, b: bv8): bv8 {
    var half := if b & 8 == 0 then (row >> 64) as bv64 else (row & 0xffff_ffff_ffff_ffff) as bv64;
    var quarter := if b & 4 == 0 then (half >> 32) as bv32 else (half & 0xffff_ffff) as bv32;
    var pair := if b & 2 == 0 then (quarter >> 16) as bv16 else (quarter & 0xffff) as bv16;
    if b & 1 == 0 then (pair >> 8) as bv8 else (pair & 0xff) as bv8
  }

  function Sbox(b: bv8): bv8 { Column(SboxRow(b >> 4), b) }

  function InvSbox(b: bv8): bv8 { Column(InvSboxRow(b >> 4), b) }

  lemma InvSboxSbox(b: bv8)
    ensures InvSbox(Sbox(b)) == b
  {}

  lemma SboxInvSbox(b: bv8)
    ensures Sbox(InvSbox(b)) == b
  {}

  // ---- the S-box as inversion in GF(2^8) followed by an affine map ----

  function Rotl(y: bv8, k: bv8): bv8
    requires 0 < k < 8
  {
    (y << k) | (y >> (8 - k))
  }

  /** The affine transformation of section 5.1.1 of FIPS 197. */
  function Affine(y: bv8): bv8 {
    y ^ Rotl(y, 1) ^ Rotl(y, 2) ^ Rotl(y, 3) ^ Rotl(y, 4) ^ 0x63
  }

  function InvAffine(s: bv8): bv8 {
    Rotl(s, 1) ^ Rotl(s, 3) ^ Rotl(s, 6) ^ 0x05
  }

  lemma AffineInverse(y: bv8)
    ensures InvAffine(Affine(y)) == y && Affine(InvAffine(y)) == y
  {}

  lemma SboxLowHalf(b: bv8)
    requires b < 0x80
    ensures Mul(b, InvAffine(Sbox(b))) == if b == 0 then 0 else 1
  {}

  lemma SboxHighHalf(b: bv8)
    requires b >= 0x80
    ensures Mul(b, InvAffine(Sbox(b))) == 1
  {}

  /** `y` is the multiplicative inverse of `b`, with {00} mapped to itself. */
  predicate IsInverse(b: bv8, y: bv8) {
    if b == 0 then y == 0 else Mul(b, y) == 1
  }

  lemma InverseUnique(b: bv8, y: bv8, z: bv8)
    requires IsInverse(b, y) && IsInverse(b, z)
    ensures y == z
  {
    hide Mul;
    if b != 0 {
      MulAssoc(y, b, z);
      MulComm(y, b);
      MulUnits(z);
      MulByOne(y);
    }
  }

  /** Every table entry is the affine image of the inverse of its index, and of nothing else. */
  lemma SboxIsAffineOfInverse(b: bv8, y: bv8)
    ensures Sbox(b) == Affine(y) <==> IsInverse(b, y)
  {
    hide Mul, Sbox, Affine, InvAffine;
    var z := InvAffine(Sbox(b));
    AffineInverse(Sbox(b));
    AffineInverse(y);
    if b < 0x80 { SboxLowHalf(b); } else { SboxHighHalf(b); }
    ZeroEntry();
    assert IsInverse(b, z);
    if IsInverse(b, y) {
      InverseUnique(b, y, z);
    }
  }

  lemma ZeroEntry()
    ensures InvAffine(Sbox(0)) == 0
  {}

  /** SubByte of section 5.1.1 of FIPS 197: invert in GF(2^8), then apply the affine transformation. */
  ghost function SubByte(b: bv8): bv8 {
    SboxIsAffineOfInverse(b, InvAffine(Sbox(b)));
    AffineInverse(Sbox(b));
    var y :| IsInverse(b, y);
    Affine(y)
  }

  lemma SboxIsSubByte(b: bv8)
    ensures Sbox(b) == SubByte(b)
  {
    hide Mul, Sbox, Affine, InvAffine, IsInverse;
    SboxIsAffineOfInverse(b, InvAffine(Sbox(b)));
    AffineInverse(Sbox(b));
    var y :| IsInverse(b, y) && SubByte(b) == Affine(y);
    SboxIsAffineOfInverse(b, y);
  }
}
