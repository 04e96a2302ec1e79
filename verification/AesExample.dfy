/** The first two rounds of the example of appendix B of FIPS 197, from the words of its key schedule. */
module AesExample {
  import opened Gf256
  import opened AesTables
  import Fips197
  import AesSimd

  type Block = Fips197.Block

  const KEY := AesSimd.AesKey(
    [0x2b7e1516, 0x28aed2a6, 0xabf71588, 0x09cf4f3c,
     0xa0fafe17, 0x88542cb1, 0x23a33939, 0x2a6c7605,
     0xf2c295f2, 0x7a96b943, 0x5935807a, 0x7359f67f], 2)

  const INPUT: Block :=
    [0x32, 0x43, 0xf6, 0xa8, 0x88, 0x5a, 0x30, 0x8d,
     0x31, 0x31, 0x98, 0xa2, 0xe0, 0x37, 0x07, 0x34]

  const KEY0: Block :=
    [0x2b, 0x7e, 0x15, 0x16, 0x28, 0xae, 0xd2, 0xa6,
     0xab, 0xf7, 0x15, 0x88, 0x09, 0xcf, 0x4f, 0x3c]

  const KEY1: Block :=
    [0xa0, 0xfa, 0xfe, 0x17, 0x88, 0x54, 0x2c, 0xb1,
     0x23, 0xa3, 0x39, 0x39, 0x2a, 0x6c, 0x76, 0x05]

  const KEY2: Block :=
    [0xf2, 0xc2, 0x95, 0xf2, 0x7a, 0x96, 0xb9, 0x43,
     0x59, 0x35, 0x80, 0x7a, 0x73, 0x59, 0xf6, 0x7f]

  const START: Block :=
    [0x19, 0x3d, 0xe3, 0xbe, 0xa0, 0xf4, 0xe2, 0x2b,
     0x9a, 0xc6, 0x8d, 0x2a, 0xe9, 0xf8, 0x48, 0x08]

  const SUBSTITUTED: Block :=
    [0xd4, 0x27, 0x11, 0xae, 0xe0, 0xbf, 0x98, 0xf1,
     0xb8, 0xb4, 0x5d, 0xe5, 0x1e, 0x41, 0x52, 0x30]

  const SHIFTED: Block :=
    [0xd4, 0xbf, 0x5d, 0x30, 0xe0, 0xb4, 0x52, 0xae,
     0xb8, 0x41, 0x11, 0xf1, 0x1e, 0x27, 0x98, 0xe5]

  const MIXED: Block :=
    [0x04, 0x66, 0x81, 0xe5, 0xe0, 0xcb, 0x19, 0x9a,
     0x48, 0xf8, 0xd3, 0x7a, 0x28, 0x06, 0x26, 0x4c]

  /** The state at the start of the second round. */
  const SECOND: Block :=
    [0xa4, 0x9c, 0x7f, 0xf2, 0x68, 0x9f, 0x35, 0x2b,
     0x6b, 0x5b, 0xea, 0x43, 0x02, 0x6a, 0x50, 0x49]

  const SUBSTITUTED2: Block :=
    [0x49, 0xde, 0xd2, 0x89, 0x45, 0xdb, 0x96, 0xf1,
     0x7f, 0x39, 0x87, 0x1a, 0x77, 0x02, 0x53, 0x3b]

  const SHIFTED2: Block :=
    [0x49, 0xdb, 0x87, 0x3b, 0x45, 0x39, 0x53, 0x89,
     0x7f, 0x02, 0xd2, 0xf1, 0x77, 0xde, 0x96, 0x1a]

  /** What a cipher of two rounds gives. */
  const OUTPUT: Block :=
    [0xbb, 0x19, 0x12, 0xc9, 0x3f, 0xaf, 0xea, 0xca,
     0x26, 0x37, 0x52, 0x8b, 0x04, 0x87, 0x60, 0x65]

  // ---- the steps, byte by byte ----

  lemma Sixteen(t: Block)
    ensures t == [t[0], t[1], t[2], t[3], t[4], t[5], t[6], t[7], t[8], t[9], t[10], t[11], t[12], t[13], t[14], t[15]]
  {}

  lemma ByIndex(s: Block, k: Block, i: nat)
    requires i < 16
    ensures Fips197.SubBytes(Sbox, s)[i] == Sbox(s[i])
    ensures Fips197.AddRoundKey(s, k)[i] == Xor(s[i], k[i])
  {
    hide Sbox, Xor;
    assert Fips197.At(Fips197.SubBytes(Sbox, s), i % 4, i / 4) == Sbox(Fips197.At(s, i % 4, i / 4));
    assert Fips197.At(Fips197.AddRoundKey(s, k), i % 4, i / 4)
        == Xor(Fips197.At(s, i % 4, i / 4), Fips197.At(k, i % 4, i / 4));
  }

  lemma SubBytesAre(s: Block)
    ensures Fips197.SubBytes(Sbox, s) == [
      Sbox(s[0]), Sbox(s[1]), Sbox(s[2]), Sbox(s[3]),
      Sbox(s[4]), Sbox(s[5]), Sbox(s[6]), Sbox(s[7]),
      Sbox(s[8]), Sbox(s[9]), Sbox(s[10]), Sbox(s[11]),
      Sbox(s[12]), Sbox(s[13]), Sbox(s[14]), Sbox(s[15])]
  {
    hide Sbox, Xor, Fips197.SubBytes, Fips197.AddRoundKey;
    Sixteen(Fips197.SubBytes(Sbox, s));
    ByIndex(s, s, 0); ByIndex(s, s, 1); ByIndex(s, s, 2); ByIndex(s, s, 3);
    ByIndex(s, s, 4); ByIndex(s, s, 5); ByIndex(s, s, 6); ByIndex(s, s, 7);
    ByIndex(s, s, 8); ByIndex(s, s, 9); ByIndex(s, s, 10); ByIndex(s, s, 11);
    ByIndex(s, s, 12); ByIndex(s, s, 13); ByIndex(s, s, 14); ByIndex(s, s, 15);
  }

  lemma SumsAre(s: Block, k: Block)
    ensures Fips197.AddRoundKey(s, k) == [
      Xor(s[0], k[0]), Xor(s[1], k[1]), Xor(s[2], k[2]), Xor(s[3], k[3]),
      Xor(s[4], k[4]), Xor(s[5], k[5]), Xor(s[6], k[6]), Xor(s[7], k[7]),
      Xor(s[8], k[8]), Xor(s[9], k[9]), Xor(s[10], k[10]), Xor(s[11], k[11]),
      Xor(s[12], k[12]), Xor(s[13], k[13]), Xor(s[14], k[14]), Xor(s[15], k[15])]
  {
    hide Sbox, Xor, Fips197.SubBytes, Fips197.AddRoundKey;
    Sixteen(Fips197.AddRoundKey(s, k));
    ByIndex(s, k, 0); ByIndex(s, k, 1); ByIndex(s, k, 2); ByIndex(s, k, 3);
    ByIndex(s, k, 4); ByIndex(s, k, 5); ByIndex(s, k, 6); ByIndex(s, k, 7);
    ByIndex(s, k, 8); ByIndex(s, k, 9); ByIndex(s, k, 10); ByIndex(s, k, 11);
    ByIndex(s, k, 12); ByIndex(s, k, 13); ByIndex(s, k, 14); ByIndex(s, k, 15);
  }

  lemma ShiftedAre(s: Block)
    ensures Fips197.ShiftRows(s) == [
      s[0], s[5], s[10], s[15], s[4], s[9], s[14], s[3], s[8], s[13], s[2], s[7], s[12], s[1], s[6], s[11]]
  {
    AesSimd.ShiftRowsIsStandard(s);
    hide Fips197.ShiftRows;
  }

  function MixedByte(a: bv8, b: bv8, c: bv8, d: bv8): bv8 {
    Xor(Xor(Xor(Xor(XTime(a), XTime(b)), b), c), d)
  }

  lemma MixedCell(s: Block, r: nat, c: nat)
    requires r < 4 && c < 4
    ensures var i, j, k := Fips197.Mod4(r + 1), Fips197.Mod4(r + 2), Fips197.Mod4(r + 3);
            Fips197.At(Fips197.MixColumns(s), r, c) ==
            MixedByte(Fips197.At(s, r, c), Fips197.At(s, i, c), Fips197.At(s, j, c), Fips197.At(s, k, c))
  {
    hide Xor, XTime, Mul, Sum4, AesSimd.MixColumns, Fips197.MixColumns, Fips197.At;
    var i, j, k := Fips197.Mod4(r + 1), Fips197.Mod4(r + 2), Fips197.Mod4(r + 3);
    AesSimd.MixColumnsIsStandard(s);
    AesSimd.AtMixColumns(s, r, c);
    AesSimd.MixByte(Fips197.At(s, r, c), Fips197.At(s, i, c), Fips197.At(s, j, c), Fips197.At(s, k, c));
  }

  lemma MixedColumn(s: Block, c: nat)
    requires c < 4
    ensures var t := Fips197.MixColumns(s);
            && t[4 * c] == MixedByte(s[4 * c], s[4 * c + 1], s[4 * c + 2], s[4 * c + 3])
            && t[4 * c + 1] == MixedByte(s[4 * c + 1], s[4 * c + 2], s[4 * c + 3], s[4 * c])
            && t[4 * c + 2] == MixedByte(s[4 * c + 2], s[4 * c + 3], s[4 * c], s[4 * c + 1])
            && t[4 * c + 3] == MixedByte(s[4 * c + 3], s[4 * c], s[4 * c + 1], s[4 * c + 2])
  {
    hide MixedByte, Fips197.MixColumns;
    MixedCell(s, 0, c);
    MixedCell(s, 1, c);
    MixedCell(s, 2, c);
    MixedCell(s, 3, c);
  }

  lemma MixedAre(s: Block)
    ensures Fips197.MixColumns(s) == [
      MixedByte(s[0], s[1], s[2], s[3]), MixedByte(s[1], s[2], s[3], s[0]),
      MixedByte(s[2], s[3], s[0], s[1]), MixedByte(s[3], s[0], s[1], s[2]),
      MixedByte(s[4], s[5], s[6], s[7]), MixedByte(s[5], s[6], s[7], s[4]),
      MixedByte(s[6], s[7], s[4], s[5]), MixedByte(s[7], s[4], s[5], s[6]),
      MixedByte(s[8], s[9], s[10], s[11]), MixedByte(s[9], s[10], s[11], s[8]),
      MixedByte(s[10], s[11], s[8], s[9]), MixedByte(s[11], s[8], s[9], s[10]),
      MixedByte(s[12], s[13], s[14], s[15]), MixedByte(s[13], s[14], s[15], s[12]),
      MixedByte(s[14], s[15], s[12], s[13]), MixedByte(s[15], s[12], s[13], s[14])]
  {
    hide MixedByte, Fips197.MixColumns;
    Sixteen(Fips197.MixColumns(s));
    MixedColumn(s, 0);
    MixedColumn(s, 1);
    MixedColumn(s, 2);
    MixedColumn(s, 3);
  }

  lemma KeyColumn(key: AesSimd.AesKey, i: nat, c: nat)
    requires 4 * (i + 1) <= |key.rdKey| && c < 4
    ensures var k, w := key.RoundKey(i), key.rdKey[4 * i + c];
            && k[4 * c] == AesSimd.WordByte(w, 0) && k[4 * c + 1] == AesSimd.WordByte(w, 1)
            && k[4 * c + 2] == AesSimd.WordByte(w, 2) && k[4 * c + 3] == AesSimd.WordByte(w, 3)
  {
    hide AesSimd.WordByte;
    var k, w := key.RoundKey(i), key.rdKey[4 * i + c];
    assert Fips197.At(k, 0, c) == AesSimd.WordByte(w, 0) && Fips197.At(k, 1, c) == AesSimd.WordByte(w, 1);
    assert Fips197.At(k, 2, c) == AesSimd.WordByte(w, 2) && Fips197.At(k, 3, c) == AesSimd.WordByte(w, 3);
  }

  lemma KeyBytesAre(key: AesSimd.AesKey, i: nat)
    requires 4 * (i + 1) <= |key.rdKey|
    ensures var w := key.rdKey[4 * i..4 * i + 4];
            key.RoundKey(i) == [
      AesSimd.WordByte(w[0], 0), AesSimd.WordByte(w[0], 1),
      AesSimd.WordByte(w[0], 2), AesSimd.WordByte(w[0], 3),
      AesSimd.WordByte(w[1], 0), AesSimd.WordByte(w[1], 1),
      AesSimd.WordByte(w[1], 2), AesSimd.WordByte(w[1], 3),
      AesSimd.WordByte(w[2], 0), AesSimd.WordByte(w[2], 1),
      AesSimd.WordByte(w[2], 2), AesSimd.WordByte(w[2], 3),
      AesSimd.WordByte(w[3], 0), AesSimd.WordByte(w[3], 1),
      AesSimd.WordByte(w[3], 2), AesSimd.WordByte(w[3], 3)]
  {
    hide AesSimd.WordByte, AesSimd.AesKey.RoundKey;
    Sixteen(key.RoundKey(i));
    KeyColumn(key, i, 0);
    KeyColumn(key, i, 1);
    KeyColumn(key, i, 2);
    KeyColumn(key, i, 3);
  }

  // ---- the example ----

  lemma SubstituteLow()
    ensures Sbox(0x19) == 0xd4 && Sbox(0x3d) == 0x27 && Sbox(0xe3) == 0x11 && Sbox(0xbe) == 0xae
    ensures Sbox(0xa0) == 0xe0 && Sbox(0xf4) == 0xbf && Sbox(0xe2) == 0x98 && Sbox(0x2b) == 0xf1
  {}

  lemma SubstituteHigh()
    ensures Sbox(0x9a) == 0xb8 && Sbox(0xc6) == 0xb4 && Sbox(0x8d) == 0x5d && Sbox(0x2a) == 0xe5
    ensures Sbox(0xe9) == 0x1e && Sbox(0xf8) == 0x41 && Sbox(0x48) == 0x52 && Sbox(0x08) == 0x30
  {}

  lemma Substitute()
    ensures Fips197.SubBytes(Sbox, START) == SUBSTITUTED
  {
    hide Sbox;
    SubstituteLow();
    SubstituteHigh();
    SubBytesAre(START);
  }

  lemma Substitute2Low()
    ensures Sbox(0xa4) == 0x49 && Sbox(0x9c) == 0xde && Sbox(0x7f) == 0xd2 && Sbox(0xf2) == 0x89
    ensures Sbox(0x68) == 0x45 && Sbox(0x9f) == 0xdb && Sbox(0x35) == 0x96 && Sbox(0x2b) == 0xf1
  {}

  lemma Substitute2High()
    ensures Sbox(0x6b) == 0x7f && Sbox(0x5b) == 0x39 && Sbox(0xea) == 0x87 && Sbox(0x43) == 0x1a
    ensures Sbox(0x02) == 0x77 && Sbox(0x6a) == 0x02 && Sbox(0x50) == 0x53 && Sbox(0x49) == 0x3b
  {}

  lemma Substitute2()
    ensures Fips197.SubBytes(Sbox, SECOND) == SUBSTITUTED2
  {
    hide Sbox;
    Substitute2Low();
    Substitute2High();
    SubBytesAre(SECOND);
  }

  lemma EnterValues()
    ensures Xor(0x32, 0x2b) == 0x19 && Xor(0x43, 0x7e) == 0x3d && Xor(0xf6, 0x15) == 0xe3
    ensures Xor(0xa8, 0x16) == 0xbe && Xor(0x88, 0x28) == 0xa0 && Xor(0x5a, 0xae) == 0xf4
    ensures Xor(0x30, 0xd2) == 0xe2 && Xor(0x8d, 0xa6) == 0x2b && Xor(0x31, 0xab) == 0x9a
    ensures Xor(0x31, 0xf7) == 0xc6 && Xor(0x98, 0x15) == 0x8d && Xor(0xa2, 0x88) == 0x2a
    ensures Xor(0xe0, 0x09) == 0xe9 && Xor(0x37, 0xcf) == 0xf8 && Xor(0x07, 0x4f) == 0x48
    ensures Xor(0x34, 0x3c) == 0x08
  {}

  lemma Enter()
    ensures Fips197.AddRoundKey(INPUT, KEY0) == START
  {
    hide Xor;
    EnterValues();
    SumsAre(INPUT, KEY0);
  }

  lemma AddFirstValues()
    ensures Xor(0x04, 0xa0) == 0xa4 && Xor(0x66, 0xfa) == 0x9c && Xor(0x81, 0xfe) == 0x7f
    ensures Xor(0xe5, 0x17) == 0xf2 && Xor(0xe0, 0x88) == 0x68 && Xor(0xcb, 0x54) == 0x9f
    ensures Xor(0x19, 0x2c) == 0x35 && Xor(0x9a, 0xb1) == 0x2b && Xor(0x48, 0x23) == 0x6b
    ensures Xor(0xf8, 0xa3) == 0x5b && Xor(0xd3, 0x39) == 0xea && Xor(0x7a, 0x39) == 0x43
    ensures Xor(0x28, 0x2a) == 0x02 && Xor(0x06, 0x6c) == 0x6a && Xor(0x26, 0x76) == 0x50
    ensures Xor(0x4c, 0x05) == 0x49
  {}

  lemma AddFirst()
    ensures Fips197.AddRoundKey(MIXED, KEY1) == SECOND
  {
    hide Xor;
    AddFirstValues();
    SumsAre(MIXED, KEY1);
  }

  lemma AddSecondValues()
    ensures Xor(0x49, 0xf2) == 0xbb && Xor(0xdb, 0xc2) == 0x19 && Xor(0x87, 0x95) == 0x12
    ensures Xor(0x3b, 0xf2) == 0xc9 && Xor(0x45, 0x7a) == 0x3f && Xor(0x39, 0x96) == 0xaf
    ensures Xor(0x53, 0xb9) == 0xea && Xor(0x89, 0x43) == 0xca && Xor(0x7f, 0x59) == 0x26
    ensures Xor(0x02, 0x35) == 0x37 && Xor(0xd2, 0x80) == 0x52 && Xor(0xf1, 0x7a) == 0x8b
    ensures Xor(0x77, 0x73) == 0x04 && Xor(0xde, 0x59) == 0x87 && Xor(0x96, 0xf6) == 0x60
    ensures Xor(0x1a, 0x7f) == 0x65
  {}

  lemma AddSecond()
    ensures Fips197.AddRoundKey(SHIFTED2, KEY2) == OUTPUT
  {
    hide Xor;
    AddSecondValues();
    SumsAre(SHIFTED2, KEY2);
  }

  lemma Shift()
    ensures Fips197.ShiftRows(SUBSTITUTED) == SHIFTED
  {
    hide Fips197.ShiftRows;
    ShiftedAre(SUBSTITUTED);
  }

  lemma Shift2()
    ensures Fips197.ShiftRows(SUBSTITUTED2) == SHIFTED2
  {
    hide Fips197.ShiftRows;
    ShiftedAre(SUBSTITUTED2);
  }

  lemma MixLeft()
    ensures MixedByte(0xd4, 0xbf, 0x5d, 0x30) == 0x04 && MixedByte(0xbf, 0x5d, 0x30, 0xd4) == 0x66
    ensures MixedByte(0x5d, 0x30, 0xd4, 0xbf) == 0x81 && MixedByte(0x30, 0xd4, 0xbf, 0x5d) == 0xe5
    ensures MixedByte(0xe0, 0xb4, 0x52, 0xae) == 0xe0 && MixedByte(0xb4, 0x52, 0xae, 0xe0) == 0xcb
    ensures MixedByte(0x52, 0xae, 0xe0, 0xb4) == 0x19 && MixedByte(0xae, 0xe0, 0xb4, 0x52) == 0x9a
  {}

  lemma MixRight()
    ensures MixedByte(0xb8, 0x41, 0x11, 0xf1) == 0x48 && MixedByte(0x41, 0x11, 0xf1, 0xb8) == 0xf8
    ensures MixedByte(0x11, 0xf1, 0xb8, 0x41) == 0xd3 && MixedByte(0xf1, 0xb8, 0x41, 0x11) == 0x7a
    ensures MixedByte(0x1e, 0x27, 0x98, 0xe5) == 0x28 && MixedByte(0x27, 0x98, 0xe5, 0x1e) == 0x06
    ensures MixedByte(0x98, 0xe5, 0x1e, 0x27) == 0x26 && MixedByte(0xe5, 0x1e, 0x27, 0x98) == 0x4c
  {}

  lemma Mix()
    ensures Fips197.MixColumns(SHIFTED) == MIXED
  {
    hide Fips197.MixColumns, MixedByte;
    MixLeft();
    MixRight();
    MixedAre(SHIFTED);
  }

  lemma KeyBytes0()
    ensures AesSimd.WordByte(0x2b7e1516, 0) == 0x2b && AesSimd.WordByte(0x2b7e1516, 1) == 0x7e
    ensures AesSimd.WordByte(0x2b7e1516, 2) == 0x15 && AesSimd.WordByte(0x2b7e1516, 3) == 0x16
    ensures AesSimd.WordByte(0x28aed2a6, 0) == 0x28 && AesSimd.WordByte(0x28aed2a6, 1) == 0xae
    ensures AesSimd.WordByte(0x28aed2a6, 2) == 0xd2 && AesSimd.WordByte(0x28aed2a6, 3) == 0xa6
    ensures AesSimd.WordByte(0xabf71588, 0) == 0xab && AesSimd.WordByte(0xabf71588, 1) == 0xf7
    ensures AesSimd.WordByte(0xabf71588, 2) == 0x15 && AesSimd.WordByte(0xabf71588, 3) == 0x88
    ensures AesSimd.WordByte(0x09cf4f3c, 0) == 0x09 && AesSimd.WordByte(0x09cf4f3c, 1) == 0xcf
    ensures AesSimd.WordByte(0x09cf4f3c, 2) == 0x4f && AesSimd.WordByte(0x09cf4f3c, 3) == 0x3c
  {}

  lemma RoundKey0()
    ensures KEY.RoundKey(0) == KEY0
  {
    hide AesSimd.WordByte, AesSimd.AesKey.RoundKey;
    KeyBytes0();
    KeyBytesAre(KEY, 0);
  }

  lemma KeyBytes1()
    ensures AesSimd.WordByte(0xa0fafe17, 0) == 0xa0 && AesSimd.WordByte(0xa0fafe17, 1) == 0xfa
    ensures AesSimd.WordByte(0xa0fafe17, 2) == 0xfe && AesSimd.WordByte(0xa0fafe17, 3) == 0x17
    ensures AesSimd.WordByte(0x88542cb1, 0) == 0x88 && AesSimd.WordByte(0x88542cb1, 1) == 0x54
    ensures AesSimd.WordByte(0x88542cb1, 2) == 0x2c && AesSimd.WordByte(0x88542cb1, 3) == 0xb1
    ensures AesSimd.WordByte(0x23a33939, 0) == 0x23 && AesSimd.WordByte(0x23a33939, 1) == 0xa3
    ensures AesSimd.WordByte(0x23a33939, 2) == 0x39 && AesSimd.WordByte(0x23a33939, 3) == 0x39
    ensures AesSimd.WordByte(0x2a6c7605, 0) == 0x2a && AesSimd.WordByte(0x2a6c7605, 1) == 0x6c
    ensures AesSimd.WordByte(0x2a6c7605, 2) == 0x76 && AesSimd.WordByte(0x2a6c7605, 3) == 0x05
  {}

  lemma RoundKey1()
    ensures KEY.RoundKey(1) == KEY1
  {
    hide AesSimd.WordByte, AesSimd.AesKey.RoundKey;
    KeyBytes1();
    KeyBytesAre(KEY, 1);
  }

  lemma KeyBytes2()
    ensures AesSimd.WordByte(0xf2c295f2, 0) == 0xf2 && AesSimd.WordByte(0xf2c295f2, 1) == 0xc2
    ensures AesSimd.WordByte(0xf2c295f2, 2) == 0x95 && AesSimd.WordByte(0xf2c295f2, 3) == 0xf2
    ensures AesSimd.WordByte(0x7a96b943, 0) == 0x7a && AesSimd.WordByte(0x7a96b943, 1) == 0x96
    ensures AesSimd.WordByte(0x7a96b943, 2) == 0xb9 && AesSimd.WordByte(0x7a96b943, 3) == 0x43
    ensures AesSimd.WordByte(0x5935807a, 0) == 0x59 && AesSimd.WordByte(0x5935807a, 1) == 0x35
    ensures AesSimd.WordByte(0x5935807a, 2) == 0x80 && AesSimd.WordByte(0x5935807a, 3) == 0x7a
    ensures AesSimd.WordByte(0x7359f67f, 0) == 0x73 && AesSimd.WordByte(0x7359f67f, 1) == 0x59
    ensures AesSimd.WordByte(0x7359f67f, 2) == 0xf6 && AesSimd.WordByte(0x7359f67f, 3) == 0x7f
  {}

  lemma RoundKey2()
    ensures KEY.RoundKey(2) == KEY2
  {
    hide AesSimd.WordByte, AesSimd.AesKey.RoundKey;
    KeyBytes2();
    KeyBytesAre(KEY, 2);
  }

  lemma RoundKeys()
    ensures KEY.Valid() && KEY.Schedule() == [KEY0, KEY1, KEY2]
  {
    hide KEY0, KEY1, KEY2, AesSimd.AesKey.RoundKey;
    RoundKey0();
    RoundKey1();
    RoundKey2();
  }

  /** The example as the cipher computes it. */
  lemma TwoRounds()
    ensures KEY.Valid() && Fips197.CipherRounds(Sbox, KEY.Schedule(), INPUT, 1) == SECOND
    ensures Fips197.Cipher(Sbox, KEY.Schedule(), INPUT) == OUTPUT
  {
    hide Sbox, Fips197.AddRoundKey, Fips197.SubBytes, Fips197.ShiftRows, Fips197.MixColumns, KEY;
    hide INPUT, KEY0, KEY1, KEY2, START, SUBSTITUTED, SHIFTED, MIXED, SECOND, SUBSTITUTED2, SHIFTED2, OUTPUT;
    RoundKeys();
    Enter();
    Substitute();
    Shift();
    Mix();
    AddFirst();
    Substitute2();
    Shift2();
    AddSecond();
  }

  /** The whole way from the words of the key: the encryption loop writes that block. */
  method EncryptExample(output: array<bv8>)
    requires output.Length == 16
    modifies output
    ensures output[..] == OUTPUT
  {
    hide Sbox, Fips197.Cipher, KEY, INPUT, OUTPUT;
    TwoRounds();
    var input := new bv8[16](i requires 0 <= i < 16 => INPUT[i]);
    assert input[..] == INPUT;
    AesSimd.EncryptBlock(input, output, KEY);
  }
}
