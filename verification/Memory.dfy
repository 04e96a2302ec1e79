/** Bytes, C strings and powers of two, shared by the models of code that works on buffers. */
module Memory {
  type Byte = b: int | 0 <= b < 256

  type Bytes = seq<Byte>

  function Pow2(k: nat): (p: nat)
    ensures p > 0
  {
    if k == 0 then 1 else 2 * Pow2(k - 1)
  }

  /** The elements before the first `zero`: what a C string of this memory is. */
  function CString<T(==)>(s: seq<T>, zero: T): (r: seq<T>)
    ensures zero !in r && r <= s
    ensures r == s <==> zero !in s
  {
    if s == [] || s[0] == zero then [] else [s[0]] + CString(s[1..], zero)
  }

  /** What follows a terminator is not part of the string. */
  lemma {:induction false} CStringStops<T>(s: seq<T>, more: seq<T>, zero: T)
    requires more == [] || more[0] == zero
    ensures CString(s + more, zero) == CString(s, zero)
  {
    if s == [] {
      assert s + more == more;
    } else if s[0] != zero {
      assert (s + more)[1..] == s[1..] + more;
      CStringStops(s[1..], more, zero);
    }
  }
}
