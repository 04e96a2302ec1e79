/** Arithmetic in GF(2^8) modulo x^8 + x^4 + x^3 + x + 1 (sections 4.1 and 4.2 of FIPS 197).
    Addition has its own name so that proofs can hide it and work from the algebraic laws alone. */
module Gf256 {

  function Xor(a: bv8, b: bv8): bv8 { a ^ b }

  function Sum4(a: bv8, b: bv8, c: bv8, d: bv8): bv8 { Xor(Xor(a, b), Xor(c, d)) }

  /** One lane of the vector xtime: shift left, then add {1b} under a mask that is all ones
      exactly when the lane exceeds 0x7f. */
  function XTime(x: bv8): bv8 {
    (x << 1) ^ ((if x > 0x7f then 0xff else 0x00) & 0x1b)
  }

  /** The contribution of the coefficient of x^i in `a` to a product. */
  function Term(a: bv8, i: bv8, v: bv8): bv8
    requires i < 8
  {
    if (a >> i) & 1 == 1 then v else 0
  }

  /** The sum of those `v`s whose bit is set in `a`. */
  function Select(a: bv8, v0: bv8, v1: bv8, v2: bv8, v3: bv8, v4: bv8, v5: bv8, v6: bv8, v7: bv8): bv8 {
    Xor(Sum4(Term(a, 0, v0), Term(a, 1, v1), Term(a, 2, v2), Term(a, 3, v3)),
        Sum4(Term(a, 4, v4), Term(a, 5, v5), Term(a, 6, v6), Term(a, 7, v7)))
  }

  /** Multiplication by repeated xtime, as in section 4.2.1 of FIPS 197. */
  function Mul(a: bv8, x: bv8): bv8 {
    var x1 := XTime(x);
    var x2 := XTime(x1);
    var x3 := XTime(x2);
    var x4 := XTime(x3);
    var x5 := XTime(x4);
    var x6 := XTime(x5);
    var x7 := XTime(x6);
    Select(a, x, x1, x2, x3, x4, x5, x6, x7)
  }

  // ---- addition ----

  lemma XorComm(a: bv8, b: bv8)
    ensures Xor(a, b) == Xor(b, a)
  {}

  lemma XorAssoc(a: bv8, b: bv8, c: bv8)
    ensures Xor(Xor(a, b), c) == Xor(a, Xor(b, c))
  {}

  lemma XorZero(a: bv8)
    ensures Xor(a, 0) == a && Xor(a, a) == 0
  {}

  lemma XorCancel(a: bv8, b: bv8)
    ensures Xor(Xor(a, b), b) == a
  {}

  lemma XorSwap(a: bv8, b: bv8, c: bv8, d: bv8)
    ensures Xor(Xor(a, b), Xor(c, d)) == Xor(Xor(a, c), Xor(b, d))
  {
    hide Xor;
    XorAssoc(a, b, Xor(c, d));
    XorAssoc(b, c, d);
    XorComm(b, c);
    XorAssoc(c, b, d);
    XorAssoc(a, c, Xor(b, d));
  }

  lemma Sum4Xor(a: bv8, b: bv8, c: bv8, d: bv8, e: bv8, f: bv8, g: bv8, h: bv8)
    ensures Sum4(Xor(a, e), Xor(b, f), Xor(c, g), Xor(d, h)) == Xor(Sum4(a, b, c, d), Sum4(e, f, g, h))
  {
    hide Xor;
    XorSwap(a, e, b, f);
    XorSwap(c, g, d, h);
    XorSwap(Xor(a, b), Xor(e, f), Xor(c, d), Xor(g, h));
  }

  lemma Sum4Rotate(a: bv8, b: bv8, c: bv8, d: bv8)
    ensures Sum4(b, c, d, a) == Sum4(a, b, c, d)
  {
    hide Xor;
    XorSwap(b, c, d, a);
    XorSwap(a, b, c, d);
    XorComm(Xor(b, d), Xor(c, a));
    XorComm(c, a);
  }

  /** A four by four table adds up to the same value by rows and by columns. */
  lemma Sum4Transpose(a0: bv8, a1: bv8, a2: bv8, a3: bv8, b0: bv8, b1: bv8, b2: bv8, b3: bv8,
                      c0: bv8, c1: bv8, c2: bv8, c3: bv8, d0: bv8, d1: bv8, d2: bv8, d3: bv8)
    ensures Sum4(Sum4(a0, a1, a2, a3), Sum4(b0, b1, b2, b3), Sum4(c0, c1, c2, c3), Sum4(d0, d1, d2, d3)) ==
            Sum4(Sum4(a0, b0, c0, d0), Sum4(a1, b1, c1, d1), Sum4(a2, b2, c2, d2), Sum4(a3, b3, c3, d3))
  {
    hide Xor;
    Sum4Xor(a0, a1, a2, a3, b0, b1, b2, b3);
    Sum4Xor(c0, c1, c2, c3, d0, d1, d2, d3);
    Sum4Xor(Xor(a0, b0), Xor(a1, b1), Xor(a2, b2), Xor(a3, b3), Xor(c0, d0), Xor(c1, d1), Xor(c2, d2), Xor(c3, d3));
  }

  // ---- multiplication ----

  lemma XTimeXor(x: bv8, y: bv8)
    ensures XTime(Xor(x, y)) == Xor(XTime(x), XTime(y))
  {
    if x > 0x7f {
      if y > 0x7f {} else {}
    } else {
      if y > 0x7f {} else {}
    }
  }

  ghost predicate Additive(f: bv8 -> bv8) {
    f(0) == 0 && forall x, y :: f(Xor(x, y)) == Xor(f(x), f(y))
  }

  lemma TermMap(f: bv8 -> bv8, a: bv8, i: bv8, v: bv8)
    requires i < 8 && Additive(f)
    ensures f(Term(a, i, v)) == Term(a, i, f(v))
  {}

  lemma Sum4Map(f: bv8 -> bv8, a: bv8, b: bv8, c: bv8, d: bv8)
    requires Additive(f)
    ensures f(Sum4(a, b, c, d)) == Sum4(f(a), f(b), f(c), f(d))
  {
    hide Xor;
  }

  lemma SelectMap(f: bv8 -> bv8, a: bv8, v0: bv8, v1: bv8, v2: bv8, v3: bv8, v4: bv8, v5: bv8, v6: bv8, v7: bv8)
    requires Additive(f)
    ensures f(Select(a, v0, v1, v2, v3, v4, v5, v6, v7)) ==
            Select(a, f(v0), f(v1), f(v2), f(v3), f(v4), f(v5), f(v6), f(v7))
  {
    hide Xor, Term, Sum4, Additive;
    TermMap(f, a, 0, v0); TermMap(f, a, 1, v1); TermMap(f, a, 2, v2); TermMap(f, a, 3, v3);
    TermMap(f, a, 4, v4); TermMap(f, a, 5, v5); TermMap(f, a, 6, v6); TermMap(f, a, 7, v7);
    Sum4Map(f, Term(a, 0, v0), Term(a, 1, v1), Term(a, 2, v2), Term(a, 3, v3));
    Sum4Map(f, Term(a, 4, v4), Term(a, 5, v5), Term(a, 6, v6), Term(a, 7, v7));
    XorMap(f, Sum4(Term(a, 0, v0), Term(a, 1, v1), Term(a, 2, v2), Term(a, 3, v3)),
              Sum4(Term(a, 4, v4), Term(a, 5, v5), Term(a, 6, v6), Term(a, 7, v7)));
  }

  lemma XorMap(f: bv8 -> bv8, x: bv8, y: bv8)
    requires Additive(f)
    ensures f(Xor(x, y)) == Xor(f(x), f(y))
  { hide Xor; }

  lemma TermXor(a: bv8, i: bv8, x: bv8, y: bv8)
    requires i < 8
    ensures Term(a, i, Xor(x, y)) == Xor(Term(a, i, x), Term(a, i, y))
  {
    XorZero(0);
    hide Xor;
  }

  lemma SelectXor(a: bv8, v0: bv8, v1: bv8, v2: bv8, v3: bv8, v4: bv8, v5: bv8, v6: bv8, v7: bv8,
                  w0: bv8, w1: bv8, w2: bv8, w3: bv8, w4: bv8, w5: bv8, w6: bv8, w7: bv8)
    ensures Select(a, Xor(v0, w0), Xor(v1, w1), Xor(v2, w2), Xor(v3, w3),
                   Xor(v4, w4), Xor(v5, w5), Xor(v6, w6), Xor(v7, w7)) ==
            Xor(Select(a, v0, v1, v2, v3, v4, v5, v6, v7), Select(a, w0, w1, w2, w3, w4, w5, w6, w7))
  {
    hide Xor, Term, Sum4;
    TermXor(a, 0, v0, w0); TermXor(a, 1, v1, w1); TermXor(a, 2, v2, w2); TermXor(a, 3, v3, w3);
    TermXor(a, 4, v4, w4); TermXor(a, 5, v5, w5); TermXor(a, 6, v6, w6); TermXor(a, 7, v7, w7);
    SelectSum(Term(a, 0, v0), Term(a, 1, v1), Term(a, 2, v2), Term(a, 3, v3),
              Term(a, 4, v4), Term(a, 5, v5), Term(a, 6, v6), Term(a, 7, v7),
              Term(a, 0, w0), Term(a, 1, w1), Term(a, 2, w2), Term(a, 3, w3),
              Term(a, 4, w4), Term(a, 5, w5), Term(a, 6, w6), Term(a, 7, w7));
  }

  lemma SelectSum(v0: bv8, v1: bv8, v2: bv8, v3: bv8, v4: bv8, v5: bv8, v6: bv8, v7: bv8,
                  w0: bv8, w1: bv8, w2: bv8, w3: bv8, w4: bv8, w5: bv8, w6: bv8, w7: bv8)
    ensures Xor(Sum4(Xor(v0, w0), Xor(v1, w1), Xor(v2, w2), Xor(v3, w3)),
                Sum4(Xor(v4, w4), Xor(v5, w5), Xor(v6, w6), Xor(v7, w7))) ==
            Xor(Xor(Sum4(v0, v1, v2, v3), Sum4(v4, v5, v6, v7)), Xor(Sum4(w0, w1, w2, w3), Sum4(w4, w5, w6, w7)))
  {
    hide Xor, Sum4;
    Sum4Xor(v0, v1, v2, v3, w0, w1, w2, w3);
    Sum4Xor(v4, v5, v6, v7, w4, w5, w6, w7);
    XorSwap(Sum4(v0, v1, v2, v3), Sum4(w0, w1, w2, w3), Sum4(v4, v5, v6, v7), Sum4(w4, w5, w6, w7));
  }

  lemma TermXorLeft(a: bv8, b: bv8, i: bv8, v: bv8)
    requires i < 8
    ensures Term(Xor(a, b), i, v) == Xor(Term(a, i, v), Term(b, i, v))
  {
    XorZero(0); XorZero(v); XorComm(v, 0);
    assert (Xor(a, b) >> i) & 1 == ((a >> i) & 1) ^ ((b >> i) & 1);
    assert (a >> i) & 1 == 0 || (a >> i) & 1 == 1;
    assert (b >> i) & 1 == 0 || (b >> i) & 1 == 1;
    hide Xor;
    if (a >> i) & 1 == 1 {
      if (b >> i) & 1 == 1 {} else {}
    } else {
      if (b >> i) & 1 == 1 {} else {}
    }
  }

  lemma SelectXorLeft(a: bv8, b: bv8, v0: bv8, v1: bv8, v2: bv8, v3: bv8, v4: bv8, v5: bv8, v6: bv8, v7: bv8)
    ensures Select(Xor(a, b), v0, v1, v2, v3, v4, v5, v6, v7) ==
            Xor(Select(a, v0, v1, v2, v3, v4, v5, v6, v7), Select(b, v0, v1, v2, v3, v4, v5, v6, v7))
  {
    hide Xor, Term, Sum4;
    TermXorLeft(a, b, 0, v0); TermXorLeft(a, b, 1, v1); TermXorLeft(a, b, 2, v2); TermXorLeft(a, b, 3, v3);
    TermXorLeft(a, b, 4, v4); TermXorLeft(a, b, 5, v5); TermXorLeft(a, b, 6, v6); TermXorLeft(a, b, 7, v7);
    SelectSum(Term(a, 0, v0), Term(a, 1, v1), Term(a, 2, v2), Term(a, 3, v3),
              Term(a, 4, v4), Term(a, 5, v5), Term(a, 6, v6), Term(a, 7, v7),
              Term(b, 0, v0), Term(b, 1, v1), Term(b, 2, v2), Term(b, 3, v3),
              Term(b, 4, v4), Term(b, 5, v5), Term(b, 6, v6), Term(b, 7, v7));
  }

  /** Multiplication is additive in its second argument. */
  lemma MulXor(a: bv8, x: bv8, y: bv8)
    ensures Mul(a, Xor(x, y)) == Xor(Mul(a, x), Mul(a, y))
  {
    hide Xor, XTime, Select;
    var x1, y1 := XTime(x), XTime(y);
    var x2, y2 := XTime(x1), XTime(y1);
    var x3, y3 := XTime(x2), XTime(y2);
    var x4, y4 := XTime(x3), XTime(y3);
    var x5, y5 := XTime(x4), XTime(y4);
    var x6, y6 := XTime(x5), XTime(y5);
    var x7, y7 := XTime(x6), XTime(y6);
    XTimeXor(x, y); XTimeXor(x1, y1); XTimeXor(x2, y2); XTimeXor(x3, y3);
    XTimeXor(x4, y4); XTimeXor(x5, y5); XTimeXor(x6, y6);
    SelectXor(a, x, x1, x2, x3, x4, x5, x6, x7, y, y1, y2, y3, y4, y5, y6, y7);
  }

  /** Multiplication is additive in its first argument. */
  lemma MulXorLeft(a: bv8, b: bv8, x: bv8)
    ensures Mul(Xor(a, b), x) == Xor(Mul(a, x), Mul(b, x))
  {
    hide Xor, XTime, Select;
    var x1 := XTime(x);
    var x2 := XTime(x1);
    var x3 := XTime(x2);
    var x4 := XTime(x3);
    var x5 := XTime(x4);
    var x6 := XTime(x5);
    var x7 := XTime(x6);
    SelectXorLeft(a, b, x, x1, x2, x3, x4, x5, x6, x7);
  }

  lemma MulUnits(x: bv8)
    ensures Mul(0x00, x) == 0 && Mul(x, 0x00) == 0
    ensures Mul(0x01, x) == x
  {}

  lemma MulByOne(x: bv8)
    ensures Mul(x, 0x01) == x
  {}

  lemma MulTwo(x: bv8)
    ensures Mul(0x02, x) == XTime(x)
  {}

  lemma MulThree(x: bv8)
    ensures Mul(0x03, x) == Xor(XTime(x), x)
  {}

  lemma MulFour(x: bv8)
    ensures Mul(0x04, x) == XTime(XTime(x))
  {}

  lemma MulEight(x: bv8)
    ensures Mul(0x08, x) == XTime(XTime(XTime(x)))
  {}

  lemma MulXTime(a: bv8, x: bv8)
    ensures Mul(a, XTime(x)) == XTime(Mul(a, x))
  {
    forall x, y ensures XTime(Xor(x, y)) == Xor(XTime(x), XTime(y)) { XTimeXor(x, y); }
    assert XTime(0) == 0;
    assert Additive(XTime);
    hide Xor, XTime, Select;
    var x1 := XTime(x);
    var x2 := XTime(x1);
    var x3 := XTime(x2);
    var x4 := XTime(x3);
    var x5 := XTime(x4);
    var x6 := XTime(x5);
    var x7 := XTime(x6);
    SelectMap(XTime, a, x, x1, x2, x3, x4, x5, x6, x7);
  }

  lemma MulDef(a: bv8, x: bv8)
    ensures Mul(a, x) ==
            Select(a, x, XTime(x), XTime(XTime(x)), XTime(XTime(XTime(x))), XTime(XTime(XTime(XTime(x)))),
                   XTime(XTime(XTime(XTime(XTime(x))))), XTime(XTime(XTime(XTime(XTime(XTime(x)))))),
                   XTime(XTime(XTime(XTime(XTime(XTime(XTime(x))))))))
  {
    hide Xor, XTime, Select;
  }

  lemma MulXTimeLeft(a: bv8, x: bv8)
    ensures Mul(XTime(a), x) == XTime(Mul(a, x))
  {
    hide Mul, XTime;
    MulComm(XTime(a), x);
    MulXTime(x, a);
    MulComm(x, a);
  }

  /** A map that is additive and commutes with xtime carries products by `a` to products by `a`. */
  lemma MulMap(f: bv8 -> bv8, a: bv8, x: bv8)
    requires Additive(f)
    requires forall y :: f(XTime(y)) == XTime(f(y))
    ensures f(Mul(a, x)) == Mul(a, f(x))
  {
    hide Xor, XTime, Select, Mul, Additive;
    var x1 := XTime(x);
    var x2 := XTime(x1);
    var x3 := XTime(x2);
    var x4 := XTime(x3);
    var x5 := XTime(x4);
    var x6 := XTime(x5);
    var x7 := XTime(x6);
    MulDef(a, x);
    SelectMap(f, a, x, x1, x2, x3, x4, x5, x6, x7);
    MulDef(a, f(x));
  }

  function Times(b: bv8): bv8 -> bv8 { (y: bv8) => Mul(b, y) }

  function TimesRight(b: bv8): bv8 -> bv8 { (y: bv8) => Mul(y, b) }

  lemma TimesAdditive(b: bv8)
    ensures Additive(Times(b))
    ensures forall y :: Times(b)(XTime(y)) == XTime(Times(b)(y))
  {
    hide Xor, XTime, Mul;
    forall x, y ensures Times(b)(Xor(x, y)) == Xor(Times(b)(x), Times(b)(y)) { MulXor(b, x, y); }
    forall y ensures Times(b)(XTime(y)) == XTime(Times(b)(y)) { MulXTime(b, y); }
    MulUnits(b);
  }

  lemma MulComm(a: bv8, b: bv8)
    ensures Mul(a, b) == Mul(b, a)
  {
    hide Xor, XTime, Mul, Additive;
    TimesAdditive(b);
    MulByOne(a);
    MulByOne(b);
    MulMap(Times(b), a, 1);
  }

  lemma TimesRightAdditive(b: bv8)
    ensures Additive(TimesRight(b))
    ensures forall y :: TimesRight(b)(XTime(y)) == XTime(TimesRight(b)(y))
  {
    hide Xor, XTime, Mul;
    forall x, y ensures TimesRight(b)(Xor(x, y)) == Xor(TimesRight(b)(x), TimesRight(b)(y)) { MulXorLeft(x, y, b); }
    forall y ensures TimesRight(b)(XTime(y)) == XTime(TimesRight(b)(y)) { MulXTimeLeft(y, b); }
    MulUnits(b);
  }

  lemma MulAssoc(a: bv8, b: bv8, c: bv8)
    ensures Mul(Mul(a, b), c) == Mul(a, Mul(b, c))
  {
    hide Xor, XTime, Mul, Additive;
    TimesRightAdditive(c);
    MulMap(TimesRight(c), a, b);
  }

  lemma MulSum4Left(a: bv8, b: bv8, c: bv8, d: bv8, x: bv8)
    ensures Mul(Sum4(a, b, c, d), x) == Sum4(Mul(a, x), Mul(b, x), Mul(c, x), Mul(d, x))
  {
    hide Xor, Mul;
    MulXorLeft(a, b, x);
    MulXorLeft(c, d, x);
    MulXorLeft(Xor(a, b), Xor(c, d), x);
  }

  lemma MulSum4(m: bv8, a: bv8, b: bv8, c: bv8, d: bv8)
    ensures Mul(m, Sum4(a, b, c, d)) == Sum4(Mul(m, a), Mul(m, b), Mul(m, c), Mul(m, d))
  {
    hide Xor, Mul;
    MulXor(m, a, b);
    MulXor(m, c, d);
    MulXor(m, Xor(a, b), Xor(c, d));
  }
}
