/** Hexadecimal text of the signing service. A string is its UTF-8 bytes. */
module Hex {
  import opened Memory

  const PLUS: Byte := 0x2b

  function LowerDigit(d: nat): (c: Byte)
    requires d < 16
  {
    if d < 10 then 0x30 + d else 0x61 + (d - 10)
  }

  /** The value of one hexadecimal digit of either case, or -1. */
  function DigitValue(c: Byte): (d: int)
    ensures -1 <= d < 16
  {
    if 0x30 <= c <= 0x39 then c - 0x30
    else if 0x61 <= c <= 0x66 then c - 0x61 + 10
    else if 0x41 <= c <= 0x46 then c - 0x41 + 10
    else -1
  }

  predicate IsLower(c: Byte) {
    0x30 <= c <= 0x39 || 0x61 <= c <= 0x66
  }

  function HexText(b: Bytes): (s: Bytes)
    ensures |s| == 2 * |b|
  {
    if b == [] then [] else [LowerDigit(b[0] / 16), LowerDigit(b[0] % 16)] + HexText(b[1..])
  }

  method Hex(b: Bytes) returns (s: Bytes)
    ensures s == HexText(b)
  {
    s := [];
    var i := 0;
    while i < |b|
      invariant 0 <= i <= |b|
      invariant s + HexText(b[i..]) == HexText(b)
    {
      var pair := [LowerDigit(b[i] / 16), LowerDigit(b[i] % 16)];
      assert HexText(b[i..]) == pair + HexText(b[i + 1..]);
      assert s + (pair + HexText(b[i + 1..])) == (s + pair) + HexText(b[i + 1..]);
      s := s + pair;
      i := i + 1;
    }
    assert s + [] == s;
  }

  /** Slicing a string inside a character aborts the handler. */
  datatype Outcome = Value(bytes: Bytes) | NotHex | Aborts

  /** A byte that continues a character: a string cannot be sliced before it. */
  predicate Continues(c: Byte) {
    0x80 <= c < 0xc0
  }

  /** The standard library's radix-16 reading of two bytes: digits of either case, or a plus sign and a digit. */
  function FromRadix(a: Byte, b: Byte): (v: int)
    ensures -1 <= v < 256
  {
    if a == PLUS then DigitValue(b)
    else if DigitValue(a) < 0 || DigitValue(b) < 0 then -1
    else 16 * DigitValue(a) + DigitValue(b)
  }

  /** Pairs are read from the left, and reading stops at the first one that fails. */
  function UnhexPairs(s: Bytes): (r: Outcome)
    requires |s| % 2 == 0
  {
    if s == [] then Value([])
    else if Continues(s[0]) || (|s| > 2 && Continues(s[2])) then Aborts
    else if FromRadix(s[0], s[1]) < 0 then NotHex
    else
      match UnhexPairs(s[2..])
      case Value(more) => Value([FromRadix(s[0], s[1])] + more)
      case NotHex => NotHex
      case Aborts => Aborts
  }

  function Unhex(s: Bytes): (r: Outcome) {
    if |s| % 2 != 0 then NotHex else UnhexPairs(s)
  }

  const LOWER := "0123456789abcdef"
  const UPPER := "0123456789ABCDEF"

  /** The sixteen digits of each case and nothing else. */
  lemma Digits(d: nat, c: Byte)
    requires d < 16
    ensures |LOWER| == 16 && |UPPER| == 16 && LowerDigit(d) == LOWER[d] as int
    ensures DigitValue(c) == d <==> c == LOWER[d] as int || c == UPPER[d] as int
    ensures LOWER == "0123456789abcdef" && UPPER == "0123456789ABCDEF"
  {
    if d < 10 {
      assert LOWER[d] as int == 0x30 + d && UPPER[d] as int == 0x30 + d;
    } else {
      assert LOWER[d] as int == 0x57 + d && UPPER[d] as int == 0x37 + d;
    }
  }

  /** Two bytes read as sixteen times one digit and another, or as the one digit that follows a plus sign. */
  lemma PairsRead(a: Byte, b: Byte)
    ensures a == '+' as int ==> FromRadix(a, b) == DigitValue(b)
    ensures a != '+' as int ==>
      FromRadix(a, b) == if DigitValue(a) == -1 || DigitValue(b) == -1 then -1 else 16 * DigitValue(a) + DigitValue(b)
    ensures IsLower(a) <==> exists d :: 0 <= d < 16 && a == LowerDigit(d)
    ensures Continues(a) <==> a / 64 == 2
  {
    if IsLower(a) {
      DigitRoundTrip(0, a);
    }
  }

  lemma DigitRoundTrip(d: nat, c: Byte)
    ensures d < 16 ==> DigitValue(LowerDigit(d)) == d && IsLower(LowerDigit(d))
    ensures IsLower(c) ==> 0 <= DigitValue(c) < 16 && LowerDigit(DigitValue(c)) == c
  {
  }

  /** Reading back what was printed gives the same bytes. */
  lemma {:induction false} UnhexHex(b: Bytes)
    ensures Unhex(HexText(b)) == Value(b)
  {
    if b != [] {
      UnhexHex(b[1..]);
      var s := HexText(b);
      DigitRoundTrip(b[0] / 16, 0);
      DigitRoundTrip(b[0] % 16, 0);
      assert s[2..] == HexText(b[1..]);
      if |b| > 1 {
        assert s[2] == HexText(b[1..])[0] == LowerDigit(b[1] / 16);
        DigitRoundTrip(b[1] / 16, 0);
      }
      assert [b[0]] + b[1..] == b;
    }
  }

  /** The value of the pair of bytes at `i`, or -1. */
  function Pair(s: Bytes, i: nat): (v: int)
    requires 2 * i + 1 < |s|
    ensures -1 <= v < 256
  {
    FromRadix(s[2 * i], s[2 * i + 1])
  }

  lemma PairOfTail(s: Bytes, i: nat)
    requires 2 * i + 3 < |s|
    ensures Pair(s[2..], i) == Pair(s, i + 1) && s[2..][2 * i] == s[2 * (i + 1)]
  {
  }

  /** A text is read exactly when it has even length and every pair is two digits of either case, or a
      plus sign and a digit. */
  lemma {:induction false} UnhexAccepts(s: Bytes)
    requires |s| % 2 == 0
    ensures Unhex(s).Value? <==> forall i :: 0 <= i < |s| / 2 ==> Pair(s, i) >= 0
    ensures Unhex(s).Value? ==>
      |Unhex(s).bytes| == |s| / 2 && forall i :: 0 <= i < |s| / 2 ==> Unhex(s).bytes[i] == Pair(s, i)
  {
    if s != [] {
      var t := s[2..];
      UnhexAccepts(t);
      forall i | 0 <= i < |t| / 2 ensures Pair(t, i) == Pair(s, i + 1) { PairOfTail(s, i); }
      if forall i :: 0 <= i < |s| / 2 ==> Pair(s, i) >= 0 {
        assert Pair(s, 0) >= 0;
        assert |s| > 2 ==> Pair(s, 1) >= 0;
      }
      if Unhex(s).Value? {
        assert Unhex(s).bytes == [Pair(s, 0)] + Unhex(t).bytes;
        forall i | 0 <= i < |s| / 2
          ensures Pair(s, i) >= 0 && Unhex(s).bytes[i] == Pair(s, i)
        {
          if i > 0 { PairOfTail(s, i - 1); }
        }
      }
    }
  }

  /** Printing back what was read gives the same text exactly when every byte of it is a lower-case digit. */
  lemma {:induction false} HexUnhex(s: Bytes)
    requires Unhex(s).Value?
    ensures HexText(Unhex(s).bytes) == s <==> forall i :: 0 <= i < |s| ==> IsLower(s[i])
  {
    if s != [] {
      var t := s[2..];
      HexUnhex(t);
      var v := FromRadix(s[0], s[1]);
      assert Unhex(s).bytes == [v] + Unhex(t).bytes;
      assert HexText(Unhex(s).bytes) == [LowerDigit(v / 16), LowerDigit(v % 16)] + HexText(Unhex(t).bytes);
      assert s == [s[0], s[1]] + t;
      PairRoundTrip(s[0], s[1]);
      assert (forall i :: 0 <= i < |s| ==> IsLower(s[i])) <==>
             IsLower(s[0]) && IsLower(s[1]) && forall i :: 0 <= i < |t| ==> IsLower(t[i]);
    }
  }

  lemma PairRoundTrip(a: Byte, b: Byte)
    requires FromRadix(a, b) >= 0
    ensures [LowerDigit(FromRadix(a, b) / 16), LowerDigit(FromRadix(a, b) % 16)] == [a, b] <==> IsLower(a) && IsLower(b)
  {
  }

  /** The pairs before the one that ends at `k` all read, and a character runs over its end. */
  predicate CutAt(s: Bytes, k: nat) {
    0 < k && 2 * k + 1 < |s| && Continues(s[2 * k]) && forall i :: 0 <= i < k - 1 ==> Pair(s, i) >= 0
  }

  lemma CutOfTail(s: Bytes, k: nat)
    requires |s| > 2 && Pair(s, 0) >= 0 && k > 0
    ensures CutAt(s[2..], k) <==> CutAt(s, k + 1)
  {
    if 2 * k + 3 < |s| {
      PairOfTail(s, k);
      forall i | 0 <= i < k - 1 ensures Pair(s[2..], i) == Pair(s, i + 1) { PairOfTail(s, i); }
      if CutAt(s[2..], k) {
        forall i | 0 <= i < k ensures Pair(s, i) >= 0 {
          if i > 0 { assert Pair(s[2..], i - 1) >= 0; }
        }
      }
    }
  }

  /** Reading aborts exactly when a character runs over the end of the first pair that does not read. */
  lemma {:induction false} UnhexAborts(s: Bytes)
    requires |s| % 2 == 0 && (s != [] ==> !Continues(s[0]))
    ensures Unhex(s) == Aborts <==> exists k :: CutAt(s, k)
  {
    if |s| > 2 {
      var t := s[2..];
      if Continues(s[2]) {
        assert CutAt(s, 1);
      } else {
        UnhexAborts(t);
        if Pair(s, 0) < 0 {
          assert forall k: nat :: k > 1 ==> !CutAt(s, k);
        } else {
          if k :| CutAt(t, k) { CutOfTail(s, k); }
          if k: nat :| CutAt(s, k) {
            assert k != 1;
            CutOfTail(s, k - 1);
          }
        }
      }
    } else {
      if s != [] {
        assert s[2..] == [];
        assert UnhexPairs(s[2..]) == Value([]);
        assert UnhexPairs(s) != Aborts;
      }
      assert Unhex(s) != Aborts;
      assert forall k :: !CutAt(s, k);
    }
  }

  /** "4A" reads but prints back as "4a"; "+7" reads but prints back as "07". */
  lemma TextsThatChange()
    ensures Unhex([0x34, 0x41]) == Value([0x4a]) && HexText([0x4a]) == [0x34, 0x61]
    ensures Unhex([PLUS, 0x37]) == Value([0x07]) && HexText([0x07]) == [0x30, 0x37]
  {
    assert UnhexPairs([]) == Value([]);
    assert [0x34, 0x41][2..] == [] && [PLUS, 0x37][2..] == [];
    assert HexText([]) == [];
  }

  /** The text of an a, an e with acute accent and a 1: four bytes, and the accented letter runs over the
      end of the first pair. */
  lemma TextThatAborts()
    ensures Unhex([0x61, 0xc3, 0xa9, 0x31]) == Aborts
  {
    assert CutAt([0x61, 0xc3, 0xa9, 0x31], 1);
    UnhexAborts([0x61, 0xc3, 0xa9, 0x31]);
  }
}
