/** The block cipher as sections 5.1 and 5.3 of FIPS 197 state it, over the four by four state array of
    section 3.4 in which byte r + 4 * c of a block is the entry in row r and column c. */
module Fips197 {
  import opened Gf256

  type Block = s: seq<bv8> | |s| == 16 witness seq(16, _ => 0)

  function At(s: Block, r: int, c: int): bv8
    requires 0 <= r < 4 && 0 <= c < 4
  {
    s[r + 4 * c]
  }

  /** `i` modulo 4, for the rotations within a row or a column. */
  function Mod4(i: int): int {
    if i < 0 then i + 4 else if i < 4 then i else i - 4
  }

  /** The block whose entry in row r and column c is f(r, c). */
  function Cells(f: (int, int) --> bv8): (s: Block)
    requires forall r, c :: 0 <= r < 4 && 0 <= c < 4 ==> f.requires(r, c)
    ensures forall r, c :: 0 <= r < 4 && 0 <= c < 4 ==> At(s, r, c) == f(r, c)
  {
    var s := seq(16, i requires 0 <= i < 16 => f(i % 4, i / 4));
    assert forall r, c | 0 <= r < 4 && 0 <= c < 4 :: At(s, r, c) == f((r + 4 * c) % 4, (r + 4 * c) / 4);
    s
  }

  lemma SameCells(s: Block, t: Block)
    requires forall r, c :: 0 <= r < 4 && 0 <= c < 4 ==> At(s, r, c) == At(t, r, c)
    ensures s == t
  {
    forall i | 0 <= i < 16
      ensures s[i] == t[i]
    {
      assert At(s, i % 4, i / 4) == At(t, i % 4, i / 4);
    }
  }

  function AddRoundKey(s: Block, k: Block): Block {
    Cells((r, c) requires 0 <= r < 4 && 0 <= c < 4 => Xor(At(s, r, c), At(k, r, c)))
  }

  function SubBytes(sub: bv8 -> bv8, s: Block): Block {
    Cells((r, c) requires 0 <= r < 4 && 0 <= c < 4 => sub(At(s, r, c)))
  }

  function ShiftRows(s: Block): Block {
    Cells((r, c) requires 0 <= r < 4 && 0 <= c < 4 => At(s, r, Mod4(c + r)))
  }

  function InvShiftRows(s: Block): Block {
    Cells((r, c) requires 0 <= r < 4 && 0 <= c < 4 => At(s, r, Mod4(c - r)))
  }

  /** Entry (r, k) of the MixColumns matrix: a circulant of {02}, {03}, {01}, {01}. */
  function MixEntry(r: int, k: int): bv8 {
    var d := Mod4(k - r);
    if d == 0 then 0x02 else if d == 1 then 0x03 else 0x01
  }

  /** Entry (r, k) of the InvMixColumns matrix: a circulant of {0e}, {0b}, {0d}, {09}. */
  function InvMixEntry(r: int, k: int): bv8 {
    var d := Mod4(k - r);
    if d == 0 then 0x0e else if d == 1 then 0x0b else if d == 2 then 0x0d else 0x09
  }

  /** A four by four matrix over GF(2^8). */
  type Matrix = (int, int) -> bv8

  /** Row r of the matrix `m` times column c of the state. */
  function RowTimesColumn(m: Matrix, s: Block, r: int, c: int): bv8
    requires 0 <= r < 4 && 0 <= c < 4
  {
    Sum4(Mul(m(r, 0), At(s, 0, c)), Mul(m(r, 1), At(s, 1, c)), Mul(m(r, 2), At(s, 2, c)), Mul(m(r, 3), At(s, 3, c)))
  }

  function TimesMatrix(m: Matrix, s: Block): Block {
    Cells((r, c) requires 0 <= r < 4 && 0 <= c < 4 => RowTimesColumn(m, s, r, c))
  }

  function MixColumns(s: Block): Block { TimesMatrix(MixEntry, s) }

  function InvMixColumns(s: Block): Block { TimesMatrix(InvMixEntry, s) }

  // ---- the ciphers, over any substitution and any sequence of round keys ----

  /** The state after the initial AddRoundKey and `i` full rounds. */
  function CipherRounds(sub: bv8 -> bv8, keys: seq<Block>, s: Block, i: nat): Block
    requires i < |keys|
  {
    if i == 0 then AddRoundKey(s, keys[0])
    else AddRoundKey(MixColumns(ShiftRows(SubBytes(sub, CipherRounds(sub, keys, s, i - 1)))), keys[i])
  }

  /** Cipher (section 5.1) with |keys| - 1 rounds. */
  function Cipher(sub: bv8 -> bv8, keys: seq<Block>, s: Block): Block
    requires |keys| >= 2
  {
    var n := |keys| - 1;
    AddRoundKey(ShiftRows(SubBytes(sub, CipherRounds(sub, keys, s, n - 1))), keys[n])
  }

  /** The state of the straight inverse after the initial AddRoundKey and `i` full rounds; keys are used
      last to first. */
  function InvCipherRounds(inv: bv8 -> bv8, keys: seq<Block>, s: Block, i: nat): Block
    requires i < |keys|
  {
    var n := |keys| - 1;
    if i == 0 then AddRoundKey(s, keys[n])
    else InvMixColumns(AddRoundKey(SubBytes(inv, InvShiftRows(InvCipherRounds(inv, keys, s, i - 1))), keys[n - i]))
  }

  /** InvCipher (section 5.3) with |keys| - 1 rounds, on the schedule of the forward cipher. */
  function InvCipher(inv: bv8 -> bv8, keys: seq<Block>, s: Block): Block
    requires |keys| >= 2
  {
    AddRoundKey(SubBytes(inv, InvShiftRows(InvCipherRounds(inv, keys, s, |keys| - 2))), keys[0])
  }

  /** The state of the Equivalent Inverse Cipher after `i` full rounds. */
  function EqInvCipherRounds(inv: bv8 -> bv8, dkeys: seq<Block>, s: Block, i: nat): Block
    requires i < |dkeys|
  {
    if i == 0 then AddRoundKey(s, dkeys[0])
    else AddRoundKey(InvMixColumns(InvShiftRows(SubBytes(inv, EqInvCipherRounds(inv, dkeys, s, i - 1)))), dkeys[i])
  }

  /** EqInvCipher (section 5.3.5), consuming its own schedule first to last. */
  function EqInvCipher(inv: bv8 -> bv8, dkeys: seq<Block>, s: Block): Block
    requires |dkeys| >= 2
  {
    var n := |dkeys| - 1;
    AddRoundKey(InvShiftRows(SubBytes(inv, EqInvCipherRounds(inv, dkeys, s, n - 1))), dkeys[n])
  }

  /** The decryption schedule of section 5.3.5: reversed, with InvMixColumns applied to all but the outer two. */
  predicate IsDecryptSchedule(keys: seq<Block>, dkeys: seq<Block>) {
    && |dkeys| == |keys| >= 2
    && dkeys[0] == keys[|keys| - 1] && dkeys[|keys| - 1] == keys[0]
    && forall i :: 0 < i < |keys| - 1 ==> dkeys[i] == InvMixColumns(keys[|keys| - 1 - i])
  }

  function DecryptSchedule(keys: seq<Block>): (dkeys: seq<Block>)
    requires |keys| >= 2
    ensures IsDecryptSchedule(keys, dkeys)
  {
    seq(|keys|, i requires 0 <= i < |keys| =>
      var k := keys[|keys| - 1 - i];
      if 0 < i < |keys| - 1 then InvMixColumns(k) else k)
  }

  /** There is no other, and it is what the section says: reversed, with InvMixColumns between the outer keys. */
  lemma DecryptScheduleUnique(keys: seq<Block>, dkeys: seq<Block>)
    requires |keys| >= 2
    ensures IsDecryptSchedule(keys, dkeys) <==> dkeys == DecryptSchedule(keys)
    ensures |DecryptSchedule(keys)| == |keys|
    ensures forall i :: 0 <= i < |keys| ==>
      DecryptSchedule(keys)[|keys| - 1 - i] == if i == 0 || i == |keys| - 1 then keys[i] else InvMixColumns(keys[i])
  {
    hide InvMixColumns;
  }

  // ---- the laws of the steps ----

  lemma AddRoundKeyLaws(s: Block, k: Block)
    ensures AddRoundKey(AddRoundKey(s, k), k) == s
  {
    hide Xor;
    forall r, c | 0 <= r < 4 && 0 <= c < 4
      ensures At(AddRoundKey(AddRoundKey(s, k), k), r, c) == At(s, r, c)
    {
      XorCancel(At(s, r, c), At(k, r, c));
    }
    SameCells(AddRoundKey(AddRoundKey(s, k), k), s);
  }

  lemma SubBytesInverse(f: bv8 -> bv8, g: bv8 -> bv8, s: Block)
    requires forall b :: g(f(b)) == b
    ensures SubBytes(g, SubBytes(f, s)) == s
  {
    SameCells(SubBytes(g, SubBytes(f, s)), s);
  }

  lemma Mod4Inverse(r: int, c: int)
    requires 0 <= r < 4 && 0 <= c < 4
    ensures Mod4(Mod4(c - r) + r) == c && Mod4(Mod4(c + r) - r) == c
    ensures 0 <= Mod4(c - r) < 4 && 0 <= Mod4(c + r) < 4
  {}

  lemma AtShiftRows(s: Block, r: int, c: int)
    requires 0 <= r < 4 && 0 <= c < 4
    ensures At(ShiftRows(s), r, c) == At(s, r, Mod4(c + r))
    ensures At(InvShiftRows(s), r, c) == At(s, r, Mod4(c - r))
  {
    hide At;
  }

  lemma ShiftRowsInverse(s: Block)
    ensures InvShiftRows(ShiftRows(s)) == s
    ensures ShiftRows(InvShiftRows(s)) == s
  {
    hide At, ShiftRows, InvShiftRows;
    forall r, c | 0 <= r < 4 && 0 <= c < 4
      ensures At(InvShiftRows(ShiftRows(s)), r, c) == At(s, r, c)
      ensures At(ShiftRows(InvShiftRows(s)), r, c) == At(s, r, c)
    {
      Mod4Inverse(r, c);
      AtShiftRows(ShiftRows(s), r, c);
      AtShiftRows(s, r, Mod4(c - r));
      AtShiftRows(InvShiftRows(s), r, c);
      AtShiftRows(s, r, Mod4(c + r));
    }
    SameCells(InvShiftRows(ShiftRows(s)), s);
    SameCells(ShiftRows(InvShiftRows(s)), s);
  }

  /** Substituting bytes commutes with moving them. */
  lemma SubBytesShiftRows(f: bv8 -> bv8, s: Block)
    ensures SubBytes(f, InvShiftRows(s)) == InvShiftRows(SubBytes(f, s))
    ensures SubBytes(f, ShiftRows(s)) == ShiftRows(SubBytes(f, s))
  {
    hide At, ShiftRows, InvShiftRows;
    forall r, c | 0 <= r < 4 && 0 <= c < 4
      ensures At(SubBytes(f, InvShiftRows(s)), r, c) == At(InvShiftRows(SubBytes(f, s)), r, c)
      ensures At(SubBytes(f, ShiftRows(s)), r, c) == At(ShiftRows(SubBytes(f, s)), r, c)
    {
      AtShiftRows(s, r, c);
      AtShiftRows(SubBytes(f, s), r, c);
    }
    SameCells(SubBytes(f, InvShiftRows(s)), InvShiftRows(SubBytes(f, s)));
    SameCells(SubBytes(f, ShiftRows(s)), ShiftRows(SubBytes(f, s)));
  }

  /** Multiplying the columns by any matrix is additive in the whole state. */
  lemma TimesMatrixXor(m: Matrix, s: Block, t: Block)
    ensures TimesMatrix(m, AddRoundKey(s, t)) == AddRoundKey(TimesMatrix(m, s), TimesMatrix(m, t))
  {
    hide Xor, Mul, Sum4;
    var st := AddRoundKey(s, t);
    forall r, c | 0 <= r < 4 && 0 <= c < 4
      ensures RowTimesColumn(m, st, r, c) == Xor(RowTimesColumn(m, s, r, c), RowTimesColumn(m, t, r, c))
    {
      forall k | 0 <= k < 4
        ensures Mul(m(r, k), At(st, k, c)) == Xor(Mul(m(r, k), At(s, k, c)), Mul(m(r, k), At(t, k, c)))
      {
        MulXor(m(r, k), At(s, k, c), At(t, k, c));
      }
      Sum4Xor(Mul(m(r, 0), At(s, 0, c)), Mul(m(r, 1), At(s, 1, c)),
              Mul(m(r, 2), At(s, 2, c)), Mul(m(r, 3), At(s, 3, c)),
              Mul(m(r, 0), At(t, 0, c)), Mul(m(r, 1), At(t, 1, c)),
              Mul(m(r, 2), At(t, 2, c)), Mul(m(r, 3), At(t, 3, c)));
    }
    SameCells(TimesMatrix(m, st), AddRoundKey(TimesMatrix(m, s), TimesMatrix(m, t)));
  }

  /** Entry (r, k) of the product of two four by four matrices. */
  function ProductEntry(m: Matrix, n: Matrix, r: int, k: int): bv8 {
    Sum4(Mul(m(r, 0), n(0, k)), Mul(m(r, 1), n(1, k)), Mul(m(r, 2), n(2, k)), Mul(m(r, 3), n(3, k)))
  }

  lemma MulRow(m: bv8, n0: bv8, n1: bv8, n2: bv8, n3: bv8, a: bv8, b: bv8, c: bv8, d: bv8)
    ensures Mul(m, Sum4(Mul(n0, a), Mul(n1, b), Mul(n2, c), Mul(n3, d))) ==
            Sum4(Mul(Mul(m, n0), a), Mul(Mul(m, n1), b), Mul(Mul(m, n2), c), Mul(Mul(m, n3), d))
  {
    hide Mul, Sum4;
    MulSum4(m, Mul(n0, a), Mul(n1, b), Mul(n2, c), Mul(n3, d));
    MulAssoc(m, n0, a); MulAssoc(m, n1, b); MulAssoc(m, n2, c); MulAssoc(m, n3, d);
  }

  /** Multiplying by two matrices in turn is multiplying by their product. */
  lemma TimesMatrixTwice(m: Matrix, n: Matrix, s: Block, r: int, c: int)
    requires 0 <= r < 4 && 0 <= c < 4
    ensures RowTimesColumn(m, TimesMatrix(n, s), r, c) ==
            Sum4(Mul(ProductEntry(m, n, r, 0), At(s, 0, c)), Mul(ProductEntry(m, n, r, 1), At(s, 1, c)),
                 Mul(ProductEntry(m, n, r, 2), At(s, 2, c)), Mul(ProductEntry(m, n, r, 3), At(s, 3, c)))
  {
    hide Mul, Sum4, At;
    var a0, a1, a2, a3 := At(s, 0, c), At(s, 1, c), At(s, 2, c), At(s, 3, c);
    var m0, m1, m2, m3 := m(r, 0), m(r, 1), m(r, 2), m(r, 3);
    MulRow(m0, n(0, 0), n(0, 1), n(0, 2), n(0, 3), a0, a1, a2, a3);
    MulRow(m1, n(1, 0), n(1, 1), n(1, 2), n(1, 3), a0, a1, a2, a3);
    MulRow(m2, n(2, 0), n(2, 1), n(2, 2), n(2, 3), a0, a1, a2, a3);
    MulRow(m3, n(3, 0), n(3, 1), n(3, 2), n(3, 3), a0, a1, a2, a3);
    Sum4Transpose(
      Mul(Mul(m0, n(0, 0)), a0), Mul(Mul(m0, n(0, 1)), a1), Mul(Mul(m0, n(0, 2)), a2), Mul(Mul(m0, n(0, 3)), a3),
      Mul(Mul(m1, n(1, 0)), a0), Mul(Mul(m1, n(1, 1)), a1), Mul(Mul(m1, n(1, 2)), a2), Mul(Mul(m1, n(1, 3)), a3),
      Mul(Mul(m2, n(2, 0)), a0), Mul(Mul(m2, n(2, 1)), a1), Mul(Mul(m2, n(2, 2)), a2), Mul(Mul(m2, n(2, 3)), a3),
      Mul(Mul(m3, n(3, 0)), a0), Mul(Mul(m3, n(3, 1)), a1), Mul(Mul(m3, n(3, 2)), a2), Mul(Mul(m3, n(3, 3)), a3));
    MulSum4Left(Mul(m0, n(0, 0)), Mul(m1, n(1, 0)), Mul(m2, n(2, 0)), Mul(m3, n(3, 0)), a0);
    MulSum4Left(Mul(m0, n(0, 1)), Mul(m1, n(1, 1)), Mul(m2, n(2, 1)), Mul(m3, n(3, 1)), a1);
    MulSum4Left(Mul(m0, n(0, 2)), Mul(m1, n(1, 2)), Mul(m2, n(2, 2)), Mul(m3, n(3, 2)), a2);
    MulSum4Left(Mul(m0, n(0, 3)), Mul(m1, n(1, 3)), Mul(m2, n(2, 3)), Mul(m3, n(3, 3)), a3);
  }

  lemma EntryProducts()
    ensures Mul(0x02, 0x0e) == 0x1c && Mul(0x02, 0x0b) == 0x16 && Mul(0x02, 0x0d) == 0x1a && Mul(0x02, 0x09) == 0x12
    ensures Mul(0x03, 0x0e) == 0x12 && Mul(0x03, 0x0b) == 0x1d && Mul(0x03, 0x0d) == 0x17 && Mul(0x03, 0x09) == 0x1b
    ensures Mul(0x01, 0x0e) == 0x0e && Mul(0x01, 0x0b) == 0x0b && Mul(0x01, 0x0d) == 0x0d && Mul(0x01, 0x09) == 0x09
  {}

  lemma MulEntriesComm(r: int, j: int, k: int)
    ensures Mul(InvMixEntry(r, j), MixEntry(j, k)) == Mul(MixEntry(j, k), InvMixEntry(r, j))
  {
    MulComm(InvMixEntry(r, j), MixEntry(j, k));
  }

  /** The two circulants are each other's inverse. */
  lemma MixTimesInvMix(r: int, k: int)
    requires 0 <= r < 4 && 0 <= k < 4
    ensures ProductEntry(MixEntry, InvMixEntry, r, k) == if r == k then 0x01 else 0x00
  {
    hide Mul;
    EntryProducts();
    if r == k {} else if Mod4(k - r) == 1 {} else if Mod4(k - r) == 2 {} else {}
  }

  lemma InvMixTimesMix(r: int, k: int)
    requires 0 <= r < 4 && 0 <= k < 4
    ensures ProductEntry(InvMixEntry, MixEntry, r, k) == if r == k then 0x01 else 0x00
  {
    hide Mul;
    EntryProducts();
    MulEntriesComm(r, 0, k); MulEntriesComm(r, 1, k); MulEntriesComm(r, 2, k); MulEntriesComm(r, 3, k);
    if r == k {} else if Mod4(k - r) == 1 {} else if Mod4(k - r) == 2 {} else {}
  }

  lemma SumOfUnits(a: bv8, b: bv8, c: bv8, d: bv8)
    ensures Sum4(a, 0, 0, 0) == a && Sum4(0, b, 0, 0) == b && Sum4(0, 0, c, 0) == c && Sum4(0, 0, 0, d) == d
  {}

  lemma IdentityRow(r: int, a: bv8, b: bv8, c: bv8, d: bv8)
    requires 0 <= r < 4
    ensures Sum4(Mul(if r == 0 then 0x01 else 0x00, a), Mul(if r == 1 then 0x01 else 0x00, b),
                 Mul(if r == 2 then 0x01 else 0x00, c), Mul(if r == 3 then 0x01 else 0x00, d)) ==
            if r == 0 then a else if r == 1 then b else if r == 2 then c else d
  {
    hide Mul, Sum4;
    MulUnits(a); MulUnits(b); MulUnits(c); MulUnits(d);
    SumOfUnits(a, b, c, d);
  }

  lemma TimesInverseMatrix(m: Matrix, n: Matrix, s: Block)
    requires forall r, k | 0 <= r < 4 && 0 <= k < 4 :: ProductEntry(m, n, r, k) == if r == k then 0x01 else 0x00
    ensures TimesMatrix(m, TimesMatrix(n, s)) == s
  {
    hide Mul, Sum4, At, ProductEntry;
    forall r, c | 0 <= r < 4 && 0 <= c < 4
      ensures At(TimesMatrix(m, TimesMatrix(n, s)), r, c) == At(s, r, c)
    {
      TimesMatrixTwice(m, n, s, r, c);
      IdentityRow(r, At(s, 0, c), At(s, 1, c), At(s, 2, c), At(s, 3, c));
    }
    SameCells(TimesMatrix(m, TimesMatrix(n, s)), s);
  }

  lemma MixColumnsInverse(s: Block)
    ensures InvMixColumns(MixColumns(s)) == s
    ensures MixColumns(InvMixColumns(s)) == s
  {
    hide ProductEntry;
    forall r, k | 0 <= r < 4 && 0 <= k < 4
      ensures ProductEntry(MixEntry, InvMixEntry, r, k) == if r == k then 0x01 else 0x00
      ensures ProductEntry(InvMixEntry, MixEntry, r, k) == if r == k then 0x01 else 0x00
    {
      MixTimesInvMix(r, k);
      InvMixTimesMix(r, k);
    }
    TimesInverseMatrix(MixEntry, InvMixEntry, s);
    TimesInverseMatrix(InvMixEntry, MixEntry, s);
  }

  // ---- the ciphers undo each other ----

  /** Round i of the inverse meets round n - i of the cipher: before its substitution is undone, the inverse has
      reached the state that entered the last n - i rounds, shifted and substituted. */
  lemma {:induction false} RoundsPair(sub: bv8 -> bv8, inv: bv8 -> bv8, keys: seq<Block>, s: Block, i: nat)
    requires forall b :: inv(sub(b)) == b
    requires i < |keys| - 1
    ensures InvCipherRounds(inv, keys, Cipher(sub, keys, s), i) ==
            ShiftRows(SubBytes(sub, CipherRounds(sub, keys, s, |keys| - 2 - i)))
  {
    hide AddRoundKey, MixColumns, InvMixColumns, ShiftRows, InvShiftRows, SubBytes;
    var n := |keys| - 1;
    if i == 0 {
      AddRoundKeyLaws(ShiftRows(SubBytes(sub, CipherRounds(sub, keys, s, n - 1))), keys[n]);
    } else {
      RoundsPair(sub, inv, keys, s, i - 1);
      var e := CipherRounds(sub, keys, s, n - i);
      ShiftRowsInverse(SubBytes(sub, e));
      SubBytesInverse(sub, inv, e);
      var b := ShiftRows(SubBytes(sub, CipherRounds(sub, keys, s, n - 1 - i)));
      AddRoundKeyLaws(MixColumns(b), keys[n - i]);
      MixColumnsInverse(b);
    }
  }

  /** InvCipher undoes Cipher, for every substitution with a left inverse, every schedule and every block. */
  lemma InvCipherCipher(sub: bv8 -> bv8, inv: bv8 -> bv8, keys: seq<Block>, s: Block)
    requires forall b :: inv(sub(b)) == b
    requires |keys| >= 2
    ensures InvCipher(inv, keys, Cipher(sub, keys, s)) == s
  {
    hide AddRoundKey, MixColumns, InvMixColumns, ShiftRows, InvShiftRows, SubBytes;
    RoundsPair(sub, inv, keys, s, |keys| - 2);
    var e := AddRoundKey(s, keys[0]);
    ShiftRowsInverse(SubBytes(sub, e));
    SubBytesInverse(sub, inv, e);
    AddRoundKeyLaws(s, keys[0]);
  }

  /** The same pairing from the other end: the cipher run on a deciphered block. */
  lemma {:induction false} RoundsPairBack(sub: bv8 -> bv8, inv: bv8 -> bv8, keys: seq<Block>, s: Block, i: nat)
    requires forall b :: sub(inv(b)) == b
    requires i < |keys| - 1
    ensures ShiftRows(SubBytes(sub, CipherRounds(sub, keys, InvCipher(inv, keys, s), i))) ==
            InvCipherRounds(inv, keys, s, |keys| - 2 - i)
  {
    hide AddRoundKey, MixColumns, InvMixColumns, ShiftRows, InvShiftRows, SubBytes;
    var n := |keys| - 1;
    var d := InvCipherRounds(inv, keys, s, n - 1 - i);
    SubBytesInverse(inv, sub, InvShiftRows(d));
    ShiftRowsInverse(d);
    if i == 0 {
      AddRoundKeyLaws(SubBytes(inv, InvShiftRows(d)), keys[0]);
    } else {
      RoundsPairBack(sub, inv, keys, s, i - 1);
      var b := AddRoundKey(SubBytes(inv, InvShiftRows(d)), keys[i]);
      MixColumnsInverse(b);
      AddRoundKeyLaws(SubBytes(inv, InvShiftRows(d)), keys[i]);
    }
  }

  /** Cipher undoes InvCipher, so both are permutations of the blocks. */
  lemma CipherInvCipher(sub: bv8 -> bv8, inv: bv8 -> bv8, keys: seq<Block>, s: Block)
    requires forall b :: sub(inv(b)) == b
    requires |keys| >= 2
    ensures Cipher(sub, keys, InvCipher(inv, keys, s)) == s
  {
    hide AddRoundKey, MixColumns, InvMixColumns, ShiftRows, InvShiftRows, SubBytes;
    RoundsPairBack(sub, inv, keys, s, |keys| - 2);
    AddRoundKeyLaws(s, keys[|keys| - 1]);
  }

  lemma {:induction false} RoundsCongruent(f: bv8 -> bv8, g: bv8 -> bv8, keys: seq<Block>, s: Block, i: nat)
    requires forall b :: f(b) == g(b)
    requires i < |keys|
    ensures CipherRounds(f, keys, s, i) == CipherRounds(g, keys, s, i)
  {
    hide AddRoundKey, MixColumns, ShiftRows, SubBytes;
    if i > 0 {
      RoundsCongruent(f, g, keys, s, i - 1);
      SubBytesCongruent(f, g, CipherRounds(f, keys, s, i - 1));
    }
  }

  lemma SubBytesCongruent(f: bv8 -> bv8, g: bv8 -> bv8, s: Block)
    requires forall b :: f(b) == g(b)
    ensures SubBytes(f, s) == SubBytes(g, s)
  {
    SameCells(SubBytes(f, s), SubBytes(g, s));
  }

  /** The cipher depends on the substitution only through its values. */
  lemma CipherCongruent(f: bv8 -> bv8, g: bv8 -> bv8, keys: seq<Block>, s: Block)
    requires forall b :: f(b) == g(b)
    requires |keys| >= 2
    ensures Cipher(f, keys, s) == Cipher(g, keys, s)
  {
    hide AddRoundKey, ShiftRows, SubBytes;
    RoundsCongruent(f, g, keys, s, |keys| - 2);
    SubBytesCongruent(f, g, CipherRounds(f, keys, s, |keys| - 2));
  }

  // ---- the Equivalent Inverse Cipher ----

  lemma {:induction false} EqInvCipherRoundsSame(inv: bv8 -> bv8, keys: seq<Block>, dkeys: seq<Block>, s: Block, i: nat)
    requires IsDecryptSchedule(keys, dkeys)
    requires i < |keys| - 1
    ensures EqInvCipherRounds(inv, dkeys, s, i) == InvCipherRounds(inv, keys, s, i)
  {
    hide AddRoundKey, TimesMatrix, ShiftRows, InvShiftRows, SubBytes;
    if i > 0 {
      EqInvCipherRoundsSame(inv, keys, dkeys, s, i - 1);
      var d := InvCipherRounds(inv, keys, s, i - 1);
      SubBytesShiftRows(inv, d);
      TimesMatrixXor(InvMixEntry, SubBytes(inv, InvShiftRows(d)), keys[|keys| - 1 - i]);
    }
  }

  /** On its transformed schedule the Equivalent Inverse Cipher computes the straight inverse cipher. */
  lemma EqInvCipherSame(inv: bv8 -> bv8, keys: seq<Block>, dkeys: seq<Block>, s: Block)
    requires IsDecryptSchedule(keys, dkeys)
    ensures EqInvCipher(inv, dkeys, s) == InvCipher(inv, keys, s)
  {
    hide AddRoundKey, ShiftRows, InvShiftRows, SubBytes;
    EqInvCipherRoundsSame(inv, keys, dkeys, s, |keys| - 2);
    SubBytesShiftRows(inv, InvCipherRounds(inv, keys, s, |keys| - 2));
  }
}
