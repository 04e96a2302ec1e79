/** The vector implementation of the block cipher: lane shuffles, a masked xtime, the corrected InvMixColumns,
    byte-swapped round keys and the two round loops. */
module AesSimd {
  import opened Gf256
  import opened AesTables
  import Fips197

  type V128 = Fips197.Block

  const SHIFT_LANES: seq<nat> := [0, 5, 10, 15, 4, 9, 14, 3, 8, 13, 2, 7, 12, 1, 6, 11]
  const INV_SHIFT_LANES: seq<nat> := [0, 13, 10, 7, 4, 1, 14, 11, 8, 5, 2, 15, 12, 9, 6, 3]
  const ROT1_LANES: seq<nat> := [1, 2, 3, 0, 5, 6, 7, 4, 9, 10, 11, 8, 13, 14, 15, 12]
  const ROT2_LANES: seq<nat> := [2, 3, 0, 1, 6, 7, 4, 5, 10, 11, 8, 9, 14, 15, 12, 13]
  const ROT3_LANES: seq<nat> := [3, 0, 1, 2, 7, 4, 5, 6, 11, 8, 9, 10, 15, 12, 13, 14]
  const SWAP_LANES: seq<nat> := [3, 2, 1, 0, 7, 6, 5, 4, 11, 10, 9, 8, 15, 14, 13, 12]

  // ---- vector instructions ----

  function Shuffle(s: V128, lanes: seq<nat>): V128
    requires |lanes| == 16 && forall i | 0 <= i < 16 :: lanes[i] < 16
  {
    seq(16, i requires 0 <= i < 16 => s[lanes[i]])
  }

  function XorV(s: V128, t: V128): V128 {
    seq(16, i requires 0 <= i < 16 => Xor(s[i], t[i]))
  }

  function XTimeV(s: V128): V128 {
    seq(16, i requires 0 <= i < 16 => XTime(s[i]))
  }

  // ---- the steps of a round ----

  method SubBytes(state: V128) returns (r: V128)
    ensures r == Fips197.SubBytes(Sbox, state)
  {
    hide Sbox;
    var b := new bv8[16](i requires 0 <= i < 16 => state[i]);
    for i := 0 to 16
      invariant forall k | 0 <= k < 16 :: b[k] == if k < i then Sbox(state[k]) else state[k]
    {
      b[i] := Sbox(b[i]);
    }
    r := b[..];
    Fips197.SameCells(r, Fips197.SubBytes(Sbox, state));
  }

  method InvSubBytes(state: V128) returns (r: V128)
    ensures r == Fips197.SubBytes(InvSbox, state)
  {
    hide InvSbox;
    var b := new bv8[16](i requires 0 <= i < 16 => state[i]);
    for i := 0 to 16
      invariant forall k | 0 <= k < 16 :: b[k] == if k < i then InvSbox(state[k]) else state[k]
    {
      b[i] := InvSbox(b[i]);
    }
    r := b[..];
    Fips197.SameCells(r, Fips197.SubBytes(InvSbox, state));
  }

  function ShiftRows(s: V128): V128 {
    Shuffle(s, SHIFT_LANES)
  }

  function InvShiftRows(s: V128): V128 {
    Shuffle(s, INV_SHIFT_LANES)
  }

  function RotCol1(s: V128): V128 {
    Shuffle(s, ROT1_LANES)
  }

  function RotCol2(s: V128): V128 {
    Shuffle(s, ROT2_LANES)
  }

  function RotCol3(s: V128): V128 {
    Shuffle(s, ROT3_LANES)
  }

  function MixColumns(s: V128): V128 {
    var t := XTimeV(s);
    XorV(XorV(XorV(XorV(t, RotCol1(t)), RotCol1(s)), RotCol2(s)), RotCol3(s))
  }

  /** MixColumns plus eight times the column sum plus four times the alternate sum. */
  function InvMixColumns(s: V128): V128 {
    var mc := MixColumns(s);
    var colSum := XorV(XorV(XorV(s, RotCol1(s)), RotCol2(s)), RotCol3(s));
    var altSum := XorV(s, RotCol2(s));
    var fourAlt := XTimeV(XTimeV(altSum));
    var eightCol := XTimeV(XTimeV(XTimeV(colSum)));
    XorV(mc, XorV(eightCol, fourAlt))
  }

  /** Sixteen bytes of the key schedule at offset `rk`, with the bytes of each 32-bit word reversed. */
  function LoadRoundKey(bytes: seq<bv8>, rk: nat): V128
    requires rk + 16 <= |bytes|
  {
    Shuffle(bytes[rk..rk + 16], SWAP_LANES)
  }

  // ---- the steps are those of the standard ----

  lemma ShiftLanes(r: int, c: int)
    requires 0 <= r < 4 && 0 <= c < 4
    ensures SHIFT_LANES[r + 4 * c] == r + 4 * Fips197.Mod4(c + r)
    ensures INV_SHIFT_LANES[r + 4 * c] == r + 4 * Fips197.Mod4(c - r)
  {
    if c == 0 {} else if c == 1 {} else if c == 2 {} else {}
  }

  lemma ColumnLanes(r: int, c: int)
    requires 0 <= r < 4 && 0 <= c < 4
    ensures ROT1_LANES[r + 4 * c] == Fips197.Mod4(r + 1) + 4 * c
    ensures ROT2_LANES[r + 4 * c] == Fips197.Mod4(r + 2) + 4 * c
    ensures ROT3_LANES[r + 4 * c] == Fips197.Mod4(r + 3) + 4 * c
    ensures SWAP_LANES[r + 4 * c] == 3 - r + 4 * c
  {
    if c == 0 {} else if c == 1 {} else if c == 2 {} else {}
  }

  lemma AtShuffleRows(s: V128, r: int, c: int)
    requires 0 <= r < 4 && 0 <= c < 4
    ensures Fips197.At(ShiftRows(s), r, c) == Fips197.At(s, r, Fips197.Mod4(c + r))
    ensures Fips197.At(InvShiftRows(s), r, c) == Fips197.At(s, r, Fips197.Mod4(c - r))
  {
    hide SHIFT_LANES, INV_SHIFT_LANES;
    ShiftLanes(r, c);
  }

  lemma ShiftRowsIsStandard(s: V128)
    ensures ShiftRows(s) == Fips197.ShiftRows(s)
    ensures InvShiftRows(s) == Fips197.InvShiftRows(s)
  {
    hide ShiftRows, InvShiftRows, Fips197.ShiftRows, Fips197.InvShiftRows, Fips197.At;
    forall r, c | 0 <= r < 4 && 0 <= c < 4
      ensures Fips197.At(ShiftRows(s), r, c) == Fips197.At(Fips197.ShiftRows(s), r, c)
      ensures Fips197.At(InvShiftRows(s), r, c) == Fips197.At(Fips197.InvShiftRows(s), r, c)
    {
      AtShuffleRows(s, r, c);
      Fips197.AtShiftRows(s, r, c);
    }
    Fips197.SameCells(ShiftRows(s), Fips197.ShiftRows(s));
    Fips197.SameCells(InvShiftRows(s), Fips197.InvShiftRows(s));
  }

  lemma AtRotCol(s: V128, r: int, c: int)
    requires 0 <= r < 4 && 0 <= c < 4
    ensures Fips197.At(RotCol1(s), r, c) == Fips197.At(s, Fips197.Mod4(r + 1), c)
    ensures Fips197.At(RotCol2(s), r, c) == Fips197.At(s, Fips197.Mod4(r + 2), c)
    ensures Fips197.At(RotCol3(s), r, c) == Fips197.At(s, Fips197.Mod4(r + 3), c)
  {
    hide ROT1_LANES, ROT2_LANES, ROT3_LANES;
    ColumnLanes(r, c);
  }

  lemma AtXor(s: V128, t: V128, r: int, c: int)
    requires 0 <= r < 4 && 0 <= c < 4
    ensures Fips197.At(XorV(s, t), r, c) == Xor(Fips197.At(s, r, c), Fips197.At(t, r, c))
    ensures Fips197.At(XTimeV(s), r, c) == XTime(Fips197.At(s, r, c))
  {
    hide Xor, XTime;
  }

  lemma XorVIsStandard(s: V128, k: V128)
    ensures XorV(s, k) == Fips197.AddRoundKey(s, k)
  {
    hide Xor;
    forall r, c | 0 <= r < 4 && 0 <= c < 4
      ensures Fips197.At(XorV(s, k), r, c) == Fips197.At(Fips197.AddRoundKey(s, k), r, c)
    {
      AtXor(s, k, r, c);
    }
    Fips197.SameCells(XorV(s, k), Fips197.AddRoundKey(s, k));
  }

  /** One byte of the vector MixColumns, from the four bytes of its column starting at its own row. */
  lemma MixByte(a: bv8, b: bv8, c: bv8, d: bv8)
    ensures Xor(Xor(Xor(Xor(XTime(a), XTime(b)), b), c), d) ==
            Sum4(Mul(0x02, a), Mul(0x03, b), Mul(0x01, c), Mul(0x01, d))
  {
    hide Xor, XTime, Mul;
    MulTwo(a);
    MulThree(b);
    MulUnits(c);
    MulUnits(d);
    XorAssoc(XTime(a), XTime(b), b);
    XorAssoc(Xor(XTime(a), Xor(XTime(b), b)), c, d);
  }

  /** One byte of the corrected InvMixColumns: the matrices differ by 8 in every entry and 4 in alternate entries. */
  lemma InvMixByte(a: bv8, b: bv8, c: bv8, d: bv8)
    ensures Xor(Sum4(Mul(0x02, a), Mul(0x03, b), Mul(0x01, c), Mul(0x01, d)),
                Xor(XTime(XTime(XTime(Xor(Xor(Xor(a, b), c), d)))), XTime(XTime(Xor(a, c))))) ==
            Sum4(Mul(0x0e, a), Mul(0x0b, b), Mul(0x0d, c), Mul(0x09, d))
  {
    CoefficientSums();
    hide Xor, XTime, Mul, Sum4;
    ColumnSum(a, b, c, d);
    MulEight(Sum4(a, b, c, d));
    MulSum4(0x08, a, b, c, d);
    MulFour(Xor(a, c));
    MulXor(0x04, a, c);
    AlternateSum(Mul(0x04, a), Mul(0x04, c));
    MulUnits(b);
    MulUnits(d);
    Sum4Xor(Mul(0x08, a), Mul(0x08, b), Mul(0x08, c), Mul(0x08, d),
            Mul(0x04, a), Mul(0x00, b), Mul(0x04, c), Mul(0x00, d));
    MulXorLeft(0x08, 0x04, a); MulXorLeft(0x08, 0x00, b); MulXorLeft(0x08, 0x04, c); MulXorLeft(0x08, 0x00, d);
    Sum4Xor(Mul(0x02, a), Mul(0x03, b), Mul(0x01, c), Mul(0x01, d),
            Mul(0x0c, a), Mul(0x08, b), Mul(0x0c, c), Mul(0x08, d));
    MulXorLeft(0x02, 0x0c, a); MulXorLeft(0x03, 0x08, b); MulXorLeft(0x01, 0x0c, c); MulXorLeft(0x01, 0x08, d);
  }

  lemma CoefficientSums()
    ensures Xor(0x08, 0x04) == 0x0c && Xor(0x08, 0x00) == 0x08
    ensures Xor(0x02, 0x0c) == 0x0e && Xor(0x03, 0x08) == 0x0b && Xor(0x01, 0x0c) == 0x0d && Xor(0x01, 0x08) == 0x09
  {}

  lemma ColumnSum(a: bv8, b: bv8, c: bv8, d: bv8)
    ensures Xor(Xor(Xor(a, b), c), d) == Sum4(a, b, c, d)
  {
    hide Xor;
    XorAssoc(Xor(a, b), c, d);
  }

  lemma AlternateSum(a: bv8, c: bv8)
    ensures Xor(a, c) == Sum4(a, 0, c, 0)
  {
    hide Xor;
    XorZero(a);
    XorZero(c);
  }

  lemma RotatedSum(p: seq<bv8>, r: int)
    requires |p| == 4 && 0 <= r < 4
    ensures Sum4(p[0], p[1], p[2], p[3]) ==
            Sum4(p[r], p[Fips197.Mod4(r + 1)], p[Fips197.Mod4(r + 2)], p[Fips197.Mod4(r + 3)])
  {
    hide Sum4;
    if r == 1 {
      Sum4Rotate(p[0], p[1], p[2], p[3]);
    } else if r == 2 {
      Sum4Rotate(p[0], p[1], p[2], p[3]);
      Sum4Rotate(p[1], p[2], p[3], p[0]);
    } else if r == 3 {
      Sum4Rotate(p[3], p[0], p[1], p[2]);
    }
  }

  function Products(m: Fips197.Matrix, s: V128, r: int, c: int): (p: seq<bv8>)
    requires 0 <= r < 4 && 0 <= c < 4
    ensures |p| == 4 && forall k | 0 <= k < 4 :: p[k] == Mul(m(r, k), Fips197.At(s, k, c))
  {
    seq(4, k requires 0 <= k < 4 => Mul(m(r, k), Fips197.At(s, k, c)))
  }

  /** A row of a matrix times a column, listed from the diagonal entry on. */
  lemma CirculantRow(m: Fips197.Matrix, s: V128, r: int, c: int)
    requires 0 <= r < 4 && 0 <= c < 4
    ensures
      var i, j, k := Fips197.Mod4(r + 1), Fips197.Mod4(r + 2), Fips197.Mod4(r + 3);
      Fips197.RowTimesColumn(m, s, r, c) ==
      Sum4(Mul(m(r, r), Fips197.At(s, r, c)), Mul(m(r, i), Fips197.At(s, i, c)),
           Mul(m(r, j), Fips197.At(s, j, c)), Mul(m(r, k), Fips197.At(s, k, c)))
  {
    hide Mul, Sum4, Fips197.At, Products;
    RotatedSum(Products(m, s, r, c), r);
  }

  lemma AtMixColumns(s: V128, r: int, c: int)
    requires 0 <= r < 4 && 0 <= c < 4
    ensures
      var i, j, k := Fips197.Mod4(r + 1), Fips197.Mod4(r + 2), Fips197.Mod4(r + 3);
      Fips197.At(MixColumns(s), r, c) ==
      Sum4(Mul(0x02, Fips197.At(s, r, c)), Mul(0x03, Fips197.At(s, i, c)),
           Mul(0x01, Fips197.At(s, j, c)), Mul(0x01, Fips197.At(s, k, c)))
  {
    hide Xor, XTime, Mul, Sum4, Fips197.At, XorV, XTimeV, RotCol1, RotCol2, RotCol3;
    var i, j, k := Fips197.Mod4(r + 1), Fips197.Mod4(r + 2), Fips197.Mod4(r + 3);
    var t := XTimeV(s);
    AtRotCol(s, r, c);
    AtRotCol(t, r, c);
    AtXor(s, s, r, c);
    AtXor(s, s, i, c);
    AtXor(t, RotCol1(t), r, c);
    AtXor(XorV(t, RotCol1(t)), RotCol1(s), r, c);
    AtXor(XorV(XorV(t, RotCol1(t)), RotCol1(s)), RotCol2(s), r, c);
    AtXor(XorV(XorV(XorV(t, RotCol1(t)), RotCol1(s)), RotCol2(s)), RotCol3(s), r, c);
    MixByte(Fips197.At(s, r, c), Fips197.At(s, i, c), Fips197.At(s, j, c), Fips197.At(s, k, c));
  }

  /** The vector MixColumns is the {02},{03},{01},{01} circulant on every column. */
  lemma MixColumnsIsStandard(s: V128)
    ensures MixColumns(s) == Fips197.MixColumns(s)
  {
    hide Mul, Sum4, Fips197.At, MixColumns, Fips197.RowTimesColumn;
    forall r, c | 0 <= r < 4 && 0 <= c < 4
      ensures Fips197.At(MixColumns(s), r, c) == Fips197.At(Fips197.MixColumns(s), r, c)
    {
      AtMixColumns(s, r, c);
      CirculantRow(Fips197.MixEntry, s, r, c);
    }
    Fips197.SameCells(MixColumns(s), Fips197.MixColumns(s));
  }

  lemma AtInvMixColumns(s: V128, r: int, c: int)
    requires 0 <= r < 4 && 0 <= c < 4
    ensures
      var i, j, k := Fips197.Mod4(r + 1), Fips197.Mod4(r + 2), Fips197.Mod4(r + 3);
      Fips197.At(InvMixColumns(s), r, c) ==
      Sum4(Mul(0x0e, Fips197.At(s, r, c)), Mul(0x0b, Fips197.At(s, i, c)),
           Mul(0x0d, Fips197.At(s, j, c)), Mul(0x09, Fips197.At(s, k, c)))
  {
    hide Xor, XTime, Mul, Sum4, Fips197.At, XorV, XTimeV, RotCol1, RotCol2, RotCol3, MixColumns;
    var i, j, k := Fips197.Mod4(r + 1), Fips197.Mod4(r + 2), Fips197.Mod4(r + 3);
    AtMixColumns(s, r, c);
    AtRotCol(s, r, c);
    AtXor(s, RotCol1(s), r, c);
    AtXor(XorV(s, RotCol1(s)), RotCol2(s), r, c);
    AtXor(XorV(XorV(s, RotCol1(s)), RotCol2(s)), RotCol3(s), r, c);
    var colSum := XorV(XorV(XorV(s, RotCol1(s)), RotCol2(s)), RotCol3(s));
    AtXor(s, RotCol2(s), r, c);
    var altSum := XorV(s, RotCol2(s));
    var fourAlt := XTimeV(XTimeV(altSum));
    AtXor(altSum, altSum, r, c);
    AtXor(XTimeV(altSum), altSum, r, c);
    var eightCol := XTimeV(XTimeV(XTimeV(colSum)));
    AtXor(colSum, colSum, r, c);
    AtXor(XTimeV(colSum), colSum, r, c);
    AtXor(XTimeV(XTimeV(colSum)), colSum, r, c);
    AtXor(eightCol, fourAlt, r, c);
    AtXor(MixColumns(s), XorV(eightCol, fourAlt), r, c);
    InvMixByte(Fips197.At(s, r, c), Fips197.At(s, i, c), Fips197.At(s, j, c), Fips197.At(s, k, c));
  }

  /** The corrected InvMixColumns is the {0e},{0b},{0d},{09} circulant on every column. */
  lemma InvMixColumnsIsStandard(s: V128)
    ensures InvMixColumns(s) == Fips197.InvMixColumns(s)
  {
    hide Mul, Sum4, Fips197.At, InvMixColumns, Fips197.RowTimesColumn;
    forall r, c | 0 <= r < 4 && 0 <= c < 4
      ensures Fips197.At(InvMixColumns(s), r, c) == Fips197.At(Fips197.InvMixColumns(s), r, c)
    {
      AtInvMixColumns(s, r, c);
      CirculantRow(Fips197.InvMixEntry, s, r, c);
    }
    Fips197.SameCells(InvMixColumns(s), Fips197.InvMixColumns(s));
  }

  // ---- the key schedule in memory ----

  /** Byte `k` of a word in little-endian memory. */
  function LittleEndianByte(w: bv32, k: int): bv8
    requires 0 <= k < 4
  {
    if k == 0 then (w & 0xff) as bv8
    else if k == 1 then ((w >> 8) & 0xff) as bv8
    else if k == 2 then ((w >> 16) & 0xff) as bv8
    else (w >> 24) as bv8
  }

  /** Byte `r` of a word of the standard, counted from the most significant end. */
  function WordByte(w: bv32, r: int): bv8
    requires 0 <= r < 4
  {
    if r == 0 then (w >> 24) as bv8
    else if r == 1 then ((w >> 16) & 0xff) as bv8
    else if r == 2 then ((w >> 8) & 0xff) as bv8
    else (w & 0xff) as bv8
  }

  /** OpenSSL's AES_KEY: the words of the schedule and the number of rounds. */
  datatype AesKey = AesKey(rdKey: seq<bv32>, rounds: nat) {

    predicate Valid() {
      rounds >= 1 && |rdKey| >= 4 * (rounds + 1)
    }

    /** The words as they lie in little-endian memory. */
    function Bytes(): seq<bv8> {
      seq(4 * |rdKey|, j requires 0 <= j < 4 * |rdKey| => LittleEndianByte(rdKey[j / 4], j % 4))
    }

    /** Round key `i` of the standard: its columns are words 4i to 4i + 3. */
    function RoundKey(i: nat): Fips197.Block
      requires 4 * (i + 1) <= |rdKey|
    {
      Fips197.Cells((r, c) requires 0 <= r < 4 && 0 <= c < 4 => WordByte(rdKey[4 * i + c], r))
    }

    function Schedule(): (keys: seq<Fips197.Block>)
      requires Valid()
      ensures |keys| == rounds + 1
      ensures forall i | 0 <= i <= rounds :: keys[i] == RoundKey(i)
    {
      seq(rounds + 1, i requires 0 <= i <= rounds => RoundKey(i))
    }
  }

  lemma AtLoadRoundKey(key: AesKey, i: nat, r: int, c: int)
    requires 4 * (i + 1) <= |key.rdKey|
    requires 0 <= r < 4 && 0 <= c < 4
    ensures |key.Bytes()| == 4 * |key.rdKey|
    ensures Fips197.At(LoadRoundKey(key.Bytes(), 16 * i), r, c) == LittleEndianByte(key.rdKey[4 * i + c], 3 - r)
  {
    hide LittleEndianByte, SWAP_LANES;
    ColumnLanes(r, c);
    var j := 16 * i + 4 * c + 3 - r;
    assert j / 4 == 4 * i + c && j % 4 == 3 - r;
    assert key.Bytes()[j] == LittleEndianByte(key.rdKey[j / 4], j % 4);
  }

  /** Loading at offset 16 * i recovers the column bytes of round key i. */
  lemma LoadRoundKeyIsStandard(key: AesKey, i: nat)
    requires 4 * (i + 1) <= |key.rdKey|
    ensures |key.Bytes()| == 4 * |key.rdKey|
    ensures LoadRoundKey(key.Bytes(), 16 * i) == key.RoundKey(i)
  {
    hide LittleEndianByte, WordByte, Fips197.At, LoadRoundKey;
    forall r, c | 0 <= r < 4 && 0 <= c < 4
      ensures Fips197.At(LoadRoundKey(key.Bytes(), 16 * i), r, c) == Fips197.At(key.RoundKey(i), r, c)
    {
      AtLoadRoundKey(key, i, r, c);
      WordByteOrder(key.rdKey[4 * i + c], r);
    }
    Fips197.SameCells(LoadRoundKey(key.Bytes(), 16 * i), key.RoundKey(i));
  }

  lemma WordByteOrder(w: bv32, r: int)
    requires 0 <= r < 4
    ensures WordByte(w, r) == LittleEndianByte(w, 3 - r)
  {}

  /** The four bytes of a word in memory are its bits from the least significant end, and those of the standard its
      bits from the most significant end. */
  lemma WordIsItsBytes(w: bv32)
    ensures w == (LittleEndianByte(w, 0) as bv32) | ((LittleEndianByte(w, 1) as bv32) << 8)
              | ((LittleEndianByte(w, 2) as bv32) << 16) | ((LittleEndianByte(w, 3) as bv32) << 24)
    ensures w == ((WordByte(w, 0) as bv32) << 24) | ((WordByte(w, 1) as bv32) << 16)
              | ((WordByte(w, 2) as bv32) << 8) | (WordByte(w, 3) as bv32)
  {}

  /** The word whose bytes are a, b, c and d from the most significant end. */
  function WordOf(a: bv8, b: bv8, c: bv8, d: bv8): bv32 {
    ((a as bv32) << 24) | ((b as bv32) << 16) | ((c as bv32) << 8) | (d as bv32)
  }

  lemma BytesOfWord(a: bv8, b: bv8, c: bv8, d: bv8)
    ensures WordByte(WordOf(a, b, c, d), 0) == a && WordByte(WordOf(a, b, c, d), 1) == b
    ensures WordByte(WordOf(a, b, c, d), 2) == c && WordByte(WordOf(a, b, c, d), 3) == d
  {}

  /** Column c of round key i, read from the most significant byte, is word 4i + c of the schedule. */
  lemma RoundKeyColumns(key: AesKey, i: nat, c: nat)
    requires 4 * (i + 1) <= |key.rdKey| && c < 4
    ensures var k := key.RoundKey(i);
            key.rdKey[4 * i + c] == ((k[4 * c] as bv32) << 24) | ((k[4 * c + 1] as bv32) << 16)
                                  | ((k[4 * c + 2] as bv32) << 8) | (k[4 * c + 3] as bv32)
  {
    var k, w := key.RoundKey(i), key.rdKey[4 * i + c];
    assert Fips197.At(k, 0, c) == WordByte(w, 0) && Fips197.At(k, 1, c) == WordByte(w, 1);
    assert Fips197.At(k, 2, c) == WordByte(w, 2) && Fips197.At(k, 3, c) == WordByte(w, 3);
    WordIsItsBytes(w);
    hide WordByte;
  }

  /** The key with the given round keys. */
  function Packed(keys: seq<Fips197.Block>): (key: AesKey)
    requires |keys| >= 2
    ensures key.Valid() && key.rounds == |keys| - 1
  {
    AesKey(seq(4 * |keys|, j requires 0 <= j < 4 * |keys| =>
                 var k, c := keys[j / 4], j % 4;
                 WordOf(Fips197.At(k, 0, c), Fips197.At(k, 1, c), Fips197.At(k, 2, c), Fips197.At(k, 3, c))),
           |keys| - 1)
  }

  /** Every sequence of round keys is the schedule of a key. */
  lemma PackedSchedule(keys: seq<Fips197.Block>)
    requires |keys| >= 2
    ensures Packed(keys).Schedule() == keys
  {
    hide WordOf, WordByte;
    var key := Packed(keys);
    forall i | 0 <= i < |keys|
      ensures key.RoundKey(i) == keys[i]
    {
      forall r, c | 0 <= r < 4 && 0 <= c < 4
        ensures Fips197.At(key.RoundKey(i), r, c) == Fips197.At(keys[i], r, c)
      {
        PackedByte(keys, i, r, c);
      }
      Fips197.SameCells(key.RoundKey(i), keys[i]);
    }
  }

  lemma PackedByte(keys: seq<Fips197.Block>, i: nat, r: int, c: int)
    requires |keys| >= 2 && i < |keys| && 0 <= r < 4 && 0 <= c < 4
    ensures WordByte(Packed(keys).rdKey[4 * i + c], r) == Fips197.At(keys[i], r, c)
  {
    hide WordOf, WordByte;
    var k := keys[i];
    assert (4 * i + c) / 4 == i && (4 * i + c) % 4 == c;
    BytesOfWord(Fips197.At(k, 0, c), Fips197.At(k, 1, c), Fips197.At(k, 2, c), Fips197.At(k, 3, c));
  }

  /** Every encryption key has a decryption key in the relation of section 5.3.5 of FIPS 197. */
  lemma DecryptKeyExists(enc: AesKey) returns (dec: AesKey)
    requires enc.Valid()
    ensures IsDecryptKey(enc, dec)
  {
    hide Packed, AesKey.Schedule, AesKey.RoundKey;
    var keys := enc.Schedule();
    var dkeys := Fips197.DecryptSchedule(keys);
    dec := Packed(dkeys);
    PackedSchedule(dkeys);
  }

  // ---- the block functions ----

  method AddRoundKey(state: V128, bytes: seq<bv8>, rk: nat, ghost key: AesKey, ghost i: nat) returns (r: V128)
    requires key.Valid() && i <= key.rounds && bytes == key.Bytes() && rk == 16 * i
    ensures r == Fips197.AddRoundKey(state, key.Schedule()[i])
  {
    hide LoadRoundKey, XorV;
    LoadRoundKeyIsStandard(key, i);
    XorVIsStandard(state, key.RoundKey(i));
    r := XorV(state, LoadRoundKey(bytes, rk));
  }

  /** The encryption loop computes Cipher (section 5.1 of FIPS 197) for every schedule and number of rounds;
      `input` and `output` may be the same buffer. */
  method EncryptBlock(input: array<bv8>, output: array<bv8>, key: AesKey)
    requires input.Length == 16 && output.Length == 16 && key.Valid()
    modifies output
    ensures output[..] == Fips197.Cipher(Sbox, key.Schedule(), old(input[..]))
  {
    hide ShiftRows, MixColumns, Fips197.ShiftRows, Fips197.MixColumns, Fips197.SubBytes, Fips197.AddRoundKey;
    var bytes, rk := key.Bytes(), 0;
    var state: V128 := input[..];
    state := AddRoundKey(state, bytes, rk, key, 0);
    rk := rk + 16;
    for round := 1 to key.rounds
      invariant rk == 16 * round
      invariant state == Fips197.CipherRounds(Sbox, key.Schedule(), old(input[..]), round - 1)
    {
      state := SubBytes(state);
      ShiftRowsIsStandard(state);
      state := ShiftRows(state);
      MixColumnsIsStandard(state);
      state := MixColumns(state);
      state := AddRoundKey(state, bytes, rk, key, round);
      rk := rk + 16;
    }
    state := SubBytes(state);
    ShiftRowsIsStandard(state);
    state := ShiftRows(state);
    state := AddRoundKey(state, bytes, rk, key, key.rounds);
    Store(output, state);
  }

  method Store(output: array<bv8>, state: V128)
    requires output.Length == 16
    modifies output
    ensures output[..] == state
  {
    forall i | 0 <= i < 16 {
      output[i] := state[i];
    }
  }

  /** The decryption loop computes EqInvCipher (section 5.3.5 of FIPS 197) on the schedule it is given. */
  method DecryptBlock(input: array<bv8>, output: array<bv8>, key: AesKey)
    requires input.Length == 16 && output.Length == 16 && key.Valid()
    modifies output
    ensures output[..] == Fips197.EqInvCipher(InvSbox, key.Schedule(), old(input[..]))
  {
    hide InvShiftRows, InvMixColumns;
    hide Fips197.InvShiftRows, Fips197.InvMixColumns, Fips197.SubBytes, Fips197.AddRoundKey;
    var bytes, rk := key.Bytes(), 0;
    var state: V128 := input[..];
    state := AddRoundKey(state, bytes, rk, key, 0);
    rk := rk + 16;
    for round := 1 to key.rounds
      invariant rk == 16 * round
      invariant state == Fips197.EqInvCipherRounds(InvSbox, key.Schedule(), old(input[..]), round - 1)
    {
      state := InvSubBytes(state);
      ShiftRowsIsStandard(state);
      state := InvShiftRows(state);
      InvMixColumnsIsStandard(state);
      state := InvMixColumns(state);
      state := AddRoundKey(state, bytes, rk, key, round);
      rk := rk + 16;
    }
    state := InvSubBytes(state);
    ShiftRowsIsStandard(state);
    state := InvShiftRows(state);
    state := AddRoundKey(state, bytes, rk, key, key.rounds);
    Store(output, state);
  }

  /** The cipher computed is the one of the standard, whose S-box is defined by inversion in GF(2^8). */
  lemma CipherIsStandard(keys: seq<Fips197.Block>, s: V128)
    requires |keys| >= 2
    ensures Fips197.Cipher(Sbox, keys, s) == Fips197.Cipher(SubByte, keys, s)
  {
    hide Sbox, SubByte, Fips197.Cipher;
    forall b ensures Sbox(b) == SubByte(b) {
      SboxIsSubByte(b);
    }
    Fips197.CipherCongruent(Sbox, SubByte, keys, s);
  }

  /** `dec` is the schedule OpenSSL derives from `enc` for decryption. */
  predicate IsDecryptKey(enc: AesKey, dec: AesKey) {
    enc.Valid() && dec.Valid() && Fips197.IsDecryptSchedule(enc.Schedule(), dec.Schedule())
  }

  /** Decryption on the transformed schedule is InvCipher on the schedule of encryption, and undoes Cipher. */
  lemma DecryptIsInvCipher(enc: AesKey, dec: AesKey, s: V128)
    requires IsDecryptKey(enc, dec)
    ensures Fips197.EqInvCipher(InvSbox, dec.Schedule(), s) == Fips197.InvCipher(InvSbox, enc.Schedule(), s)
    ensures Fips197.EqInvCipher(InvSbox, dec.Schedule(), Fips197.Cipher(Sbox, enc.Schedule(), s)) == s
    ensures Fips197.Cipher(Sbox, enc.Schedule(), Fips197.EqInvCipher(InvSbox, dec.Schedule(), s)) == s
  {
    hide Sbox, InvSbox, Fips197.Cipher, Fips197.InvCipher, Fips197.EqInvCipher;
    forall b ensures InvSbox(Sbox(b)) == b && Sbox(InvSbox(b)) == b {
      InvSboxSbox(b);
      SboxInvSbox(b);
    }
    Fips197.EqInvCipherSame(InvSbox, enc.Schedule(), dec.Schedule(), s);
    Fips197.EqInvCipherSame(InvSbox, enc.Schedule(), dec.Schedule(), Fips197.Cipher(Sbox, enc.Schedule(), s));
    Fips197.InvCipherCipher(Sbox, InvSbox, enc.Schedule(), s);
    Fips197.CipherInvCipher(Sbox, InvSbox, enc.Schedule(), s);
  }

  /** Encrypting a buffer in place and decrypting it in place restores it, whatever the key, block and round count. */
  method RoundTrip(buffer: array<bv8>, enc: AesKey, dec: AesKey)
    requires buffer.Length == 16 && IsDecryptKey(enc, dec)
    modifies buffer
    ensures buffer[..] == old(buffer[..])
  {
    hide Fips197.Cipher, Fips197.EqInvCipher, Fips197.IsDecryptSchedule;
    DecryptIsInvCipher(enc, dec, buffer[..]);
    EncryptBlock(buffer, buffer, enc);
    DecryptBlock(buffer, buffer, dec);
  }
}
