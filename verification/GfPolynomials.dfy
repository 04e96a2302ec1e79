/** Multiplication in GF(2^8) is multiplication of polynomials over GF(2) followed by reduction
    modulo x^8 + x^4 + x^3 + x + 1 (section 4.2 of FIPS 197). */
module GfPolynomials {
  import opened Gf256

  /** A polynomial of degree below 16; bit i is the coefficient of x^i. */
  type Poly = bv16

  function Plus(p: Poly, q: Poly): Poly { p ^ q }

  function Plus4(p: Poly, q: Poly, r: Poly, s: Poly): Poly { Plus(Plus(p, q), Plus(r, s)) }

  function Widen(x: bv8): Poly { x as bv16 }

  function TimesX(p: Poly): Poly { p << 1 }

  function PolyTerm(a: bv8, i: bv8, p: Poly): Poly
    requires i < 8
  {
    if (a >> i) & 1 == 1 then p else 0
  }

  /** The product of two polynomials of degree below 8, not reduced. */
  function PolyMul(a: bv8, x: bv8): Poly {
    var p := Widen(x);
    var p1 := TimesX(p);
    var p2 := TimesX(p1);
    var p3 := TimesX(p2);
    var p4 := TimesX(p3);
    var p5 := TimesX(p4);
    var p6 := TimesX(p5);
    var p7 := TimesX(p6);
    Plus(Plus4(PolyTerm(a, 0, p), PolyTerm(a, 1, p1), PolyTerm(a, 2, p2), PolyTerm(a, 3, p3)),
         Plus4(PolyTerm(a, 4, p4), PolyTerm(a, 5, p5), PolyTerm(a, 6, p6), PolyTerm(a, 7, p7)))
  }

  /** `q` times x^8 + x^4 + x^3 + x + 1; of degree below 16 because q has degree below 8. */
  function TimesModulus(q: bv8): Poly {
    var p := Widen(q);
    var p1 := TimesX(p);
    var p3 := TimesX(TimesX(p1));
    var p4 := TimesX(p3);
    var p8 := TimesX(TimesX(TimesX(TimesX(p4))));
    Plus(p, Plus4(p8, p4, p3, p1))
  }

  /** Division with remainder: p = q * (x^8 + x^4 + x^3 + x + 1) + r with r of degree below 8. */
  predicate Divides(p: Poly, q: bv8, r: bv8) {
    p == Plus(TimesModulus(q), Widen(r))
  }

  lemma DivisionUnique(p: Poly, q: bv8, r: bv8, q': bv8, r': bv8)
    requires Divides(p, q, r) && Divides(p, q', r')
    ensures q == q' && r == r'
  {
    ModulusBits(q);
    ModulusBits(q');
    hide TimesModulus;
  }

  lemma ModulusBits(q: bv8)
    ensures var p := q as bv16; TimesModulus(q) == p ^ (p << 1) ^ (p << 3) ^ (p << 4) ^ (p << 8)
  {}

  lemma PlusSwap(p: Poly, q: Poly, r: Poly, s: Poly)
    ensures Plus(Plus(p, q), Plus(r, s)) == Plus(Plus(p, r), Plus(q, s))
  {
    hide Plus;
    PlusLaws(p, q, Plus(r, s));
    PlusLaws(q, r, s);
    PlusLaws(r, q, s);
    PlusLaws(p, r, Plus(q, s));
  }

  lemma PlusLaws(p: Poly, q: Poly, r: Poly)
    ensures Plus(p, q) == Plus(q, p)
    ensures Plus(Plus(p, q), r) == Plus(p, Plus(q, r))
  {}

  lemma Plus4Plus(p: Poly, q: Poly, r: Poly, s: Poly, p': Poly, q': Poly, r': Poly, s': Poly)
    ensures Plus4(Plus(p, p'), Plus(q, q'), Plus(r, r'), Plus(s, s')) == Plus(Plus4(p, q, r, s), Plus4(p', q', r', s'))
  {
    hide Plus;
    PlusSwap(p, p', q, q');
    PlusSwap(r, r', s, s');
    PlusSwap(Plus(p, q), Plus(p', q'), Plus(r, s), Plus(r', s'));
  }

  lemma TimesXPlus(p: Poly, q: Poly)
    ensures TimesX(Plus(p, q)) == Plus(TimesX(p), TimesX(q))
  {}

  lemma WidenXor(x: bv8, y: bv8)
    ensures Widen(Xor(x, y)) == Plus(Widen(x), Widen(y))
  {}

  lemma TimesModulusXor(q: bv8, r: bv8)
    ensures TimesModulus(Xor(q, r)) == Plus(TimesModulus(q), TimesModulus(r))
  {
    hide Plus, Plus4, Widen, TimesX, Xor;
    WidenXor(q, r);
    var p, s := Widen(q), Widen(r);
    var p1, s1 := TimesX(p), TimesX(s);
    var p2, s2 := TimesX(p1), TimesX(s1);
    var p3, s3 := TimesX(p2), TimesX(s2);
    var p4, s4 := TimesX(p3), TimesX(s3);
    var p5, s5 := TimesX(p4), TimesX(s4);
    var p6, s6 := TimesX(p5), TimesX(s5);
    var p7, s7 := TimesX(p6), TimesX(s6);
    var p8, s8 := TimesX(p7), TimesX(s7);
    TimesXPlus(p, s); TimesXPlus(p1, s1); TimesXPlus(p2, s2); TimesXPlus(p3, s3);
    TimesXPlus(p4, s4); TimesXPlus(p5, s5); TimesXPlus(p6, s6); TimesXPlus(p7, s7);
    Plus4Plus(p8, p4, p3, p1, s8, s4, s3, s1);
    PlusSwap(p, s, Plus4(p8, p4, p3, p1), Plus4(s8, s4, s3, s1));
  }

  /** Dividends add when quotients and remainders do. */
  lemma DividesPlus(p: Poly, q: bv8, r: bv8, p': Poly, q': bv8, r': bv8)
    requires Divides(p, q, r) && Divides(p', q', r')
    ensures Divides(Plus(p, p'), Xor(q, q'), Xor(r, r'))
  {
    hide Plus, Widen, Xor, TimesModulus;
    TimesModulusXor(q, q');
    WidenXor(r, r');
    PlusSwap(TimesModulus(q), Widen(r), TimesModulus(q'), Widen(r'));
  }

  lemma DividesPlus4(p: Poly, q: bv8, r: bv8, p': Poly, q': bv8, r': bv8,
                     p'': Poly, q'': bv8, r'': bv8, p''': Poly, q''': bv8, r''': bv8)
    requires Divides(p, q, r) && Divides(p', q', r') && Divides(p'', q'', r'') && Divides(p''', q''', r''')
    ensures Divides(Plus4(p, p', p'', p'''), Sum4(q, q', q'', q'''), Sum4(r, r', r'', r'''))
  {
    hide Plus, Xor, Divides;
    DividesPlus(p, q, r, p', q', r');
    DividesPlus(p'', q'', r'', p''', q''', r''');
    DividesPlus(Plus(p, p'), Xor(q, q'), Xor(r, r'), Plus(p'', p'''), Xor(q'', q'''), Xor(r'', r'''));
  }

  lemma DividesTerm(a: bv8, i: bv8, p: Poly, q: bv8, r: bv8)
    requires i < 8 && Divides(p, q, r)
    ensures Divides(PolyTerm(a, i, p), Term(a, i, q), Term(a, i, r))
  {
    assert Divides(0, 0, 0);
    hide Divides;
  }

  /** The quotient after one more shift. */
  function NextQuotient(q: bv8, r: bv8): bv8 {
    if r > 0x7f then (q << 1) ^ 1 else q << 1
  }

  lemma ModulusShift(q: bv8)
    requires q < 0x80
    ensures TimesModulus(q << 1) == TimesX(TimesModulus(q))
    ensures TimesModulus((q << 1) ^ 1) == Plus(TimesX(TimesModulus(q)), 0x11b)
  {
    ModulusBits(q);
    ModulusBits(q << 1);
    ModulusBits((q << 1) ^ 1);
    hide TimesModulus;
  }

  lemma WidenXTime(r: bv8)
    ensures Widen(XTime(r)) == if r > 0x7f then Plus(TimesX(Widen(r)), 0x11b) else TimesX(Widen(r))
  {}

  /** Shifting the dividend doubles the quotient and applies xtime to the remainder. */
  lemma DividesShift(p: Poly, q: bv8, r: bv8)
    requires q < 0x80 && Divides(p, q, r)
    ensures Divides(TimesX(p), NextQuotient(q, r), XTime(r))
  {
    hide Plus, Widen, TimesX, XTime, TimesModulus;
    ModulusShift(q);
    WidenXTime(r);
    TimesXPlus(TimesModulus(q), Widen(r));
    PlusSwap(TimesX(TimesModulus(q)), 0x11b, TimesX(Widen(r)), 0x11b);
    Vanish(Plus(TimesX(TimesModulus(q)), TimesX(Widen(r))));
  }

  /** The masked xtime is multiplication by x modulo the modulus. */
  lemma XTimeIsRemainder(x: bv8)
    ensures Divides(TimesX(Widen(x)), if x > 0x7f then 1 else 0, XTime(x))
  {
    assert Divides(Widen(x), 0, x) && NextQuotient(0, x) == if x > 0x7f then 1 else 0;
    hide Divides, XTime, Widen, TimesX, NextQuotient;
    DividesShift(Widen(x), 0, x);
  }

  lemma Vanish(p: Poly)
    ensures Plus(p, Plus(0x11b, 0x11b)) == p
  {}

  lemma NextQuotientGrows(q: bv8, r: bv8, l: bv8)
    requires q < l <= 0x40
    ensures NextQuotient(q, r) < l << 1
  {}

  /** The eight shifts of `x` divided by the modulus: the remainders are the iterates of xtime. */
  lemma ShiftsDivide(x: bv8) returns (q1: bv8, q2: bv8, q3: bv8, q4: bv8, q5: bv8, q6: bv8, q7: bv8)
    ensures
      var p := Widen(x);
      var x1 := XTime(x);
      var x2 := XTime(x1);
      var x3 := XTime(x2);
      var x4 := XTime(x3);
      var x5 := XTime(x4);
      var x6 := XTime(x5);
      var p1 := TimesX(p);
      var p2 := TimesX(p1);
      var p3 := TimesX(p2);
      var p4 := TimesX(p3);
      var p5 := TimesX(p4);
      var p6 := TimesX(p5);
      && Divides(p, 0, x) && Divides(p1, q1, x1) && Divides(p2, q2, x2) && Divides(p3, q3, x3)
      && Divides(p4, q4, x4) && Divides(p5, q5, x5) && Divides(p6, q6, x6)
      && Divides(TimesX(p6), q7, XTime(x6))
  {
    var p := Widen(x);
    assert Divides(p, 0, x) by { ModulusBits(0); }
    assert NextQuotient(0, x) <= 1;
    hide Plus, Widen, TimesX, XTime, TimesModulus, Divides, NextQuotient;
    var x1 := XTime(x);
    q1 := NextQuotient(0, x);
    DividesShift(p, 0, x);
    var p1, x2 := TimesX(p), XTime(x1);
    q2 := NextQuotient(q1, x1);
    DividesShift(p1, q1, x1);
    NextQuotientGrows(q1, x1, 0x02);
    var p2, x3 := TimesX(p1), XTime(x2);
    q3 := NextQuotient(q2, x2);
    DividesShift(p2, q2, x2);
    NextQuotientGrows(q2, x2, 0x04);
    var p3, x4 := TimesX(p2), XTime(x3);
    q4 := NextQuotient(q3, x3);
    DividesShift(p3, q3, x3);
    NextQuotientGrows(q3, x3, 0x08);
    var p4, x5 := TimesX(p3), XTime(x4);
    q5 := NextQuotient(q4, x4);
    DividesShift(p4, q4, x4);
    NextQuotientGrows(q4, x4, 0x10);
    var p5, x6 := TimesX(p4), XTime(x5);
    q6 := NextQuotient(q5, x5);
    DividesShift(p5, q5, x5);
    NextQuotientGrows(q5, x5, 0x20);
    var p6 := TimesX(p5);
    q7 := NextQuotient(q6, x6);
    DividesShift(p6, q6, x6);
    NextQuotientGrows(q6, x6, 0x40);
  }

  lemma DividesTerms4(a: bv8, i: bv8, p0: Poly, q0: bv8, r0: bv8, p1: Poly, q1: bv8, r1: bv8,
                      p2: Poly, q2: bv8, r2: bv8, p3: Poly, q3: bv8, r3: bv8)
    requires i <= 4
    requires Divides(p0, q0, r0) && Divides(p1, q1, r1) && Divides(p2, q2, r2) && Divides(p3, q3, r3)
    ensures Divides(Plus4(PolyTerm(a, i, p0), PolyTerm(a, i + 1, p1), PolyTerm(a, i + 2, p2), PolyTerm(a, i + 3, p3)),
                    Sum4(Term(a, i, q0), Term(a, i + 1, q1), Term(a, i + 2, q2), Term(a, i + 3, q3)),
                    Sum4(Term(a, i, r0), Term(a, i + 1, r1), Term(a, i + 2, r2), Term(a, i + 3, r3)))
  {
    hide Plus4, Divides, Sum4, Term, PolyTerm;
    DividesTerm(a, i, p0, q0, r0);
    DividesTerm(a, i + 1, p1, q1, r1);
    DividesTerm(a, i + 2, p2, q2, r2);
    DividesTerm(a, i + 3, p3, q3, r3);
    DividesPlus4(PolyTerm(a, i, p0), Term(a, i, q0), Term(a, i, r0),
                 PolyTerm(a, i + 1, p1), Term(a, i + 1, q1), Term(a, i + 1, r1),
                 PolyTerm(a, i + 2, p2), Term(a, i + 2, q2), Term(a, i + 2, r2),
                 PolyTerm(a, i + 3, p3), Term(a, i + 3, q3), Term(a, i + 3, r3));
  }

  /** The product in the field is the remainder of the product of polynomials, for all pairs of elements. */
  lemma MulIsRemainder(a: bv8, x: bv8) returns (quotient: bv8)
    ensures Divides(PolyMul(a, x), quotient, Mul(a, x))
  {
    hide Plus, Plus4, Widen, TimesX, XTime, Divides, Xor, Sum4, Term, PolyTerm;
    var p := Widen(x);
    var q1, q2, q3, q4, q5, q6, q7 := ShiftsDivide(x);
    var p1, x1 := TimesX(p), XTime(x);
    var p2, x2 := TimesX(p1), XTime(x1);
    var p3, x3 := TimesX(p2), XTime(x2);
    var p4, x4 := TimesX(p3), XTime(x3);
    var p5, x5 := TimesX(p4), XTime(x4);
    var p6, x6 := TimesX(p5), XTime(x5);
    var p7, x7 := TimesX(p6), XTime(x6);
    DividesTerms4(a, 0, p, 0, x, p1, q1, x1, p2, q2, x2, p3, q3, x3);
    DividesTerms4(a, 4, p4, q4, x4, p5, q5, x5, p6, q6, x6, p7, q7, x7);
    var low, high := Sum4(Term(a, 0, 0), Term(a, 1, q1), Term(a, 2, q2), Term(a, 3, q3)),
                     Sum4(Term(a, 4, q4), Term(a, 5, q5), Term(a, 6, q6), Term(a, 7, q7));
    DividesPlus(Plus4(PolyTerm(a, 0, p), PolyTerm(a, 1, p1), PolyTerm(a, 2, p2), PolyTerm(a, 3, p3)),
                low, Sum4(Term(a, 0, x), Term(a, 1, x1), Term(a, 2, x2), Term(a, 3, x3)),
                Plus4(PolyTerm(a, 4, p4), PolyTerm(a, 5, p5), PolyTerm(a, 6, p6), PolyTerm(a, 7, p7)),
                high, Sum4(Term(a, 4, x4), Term(a, 5, x5), Term(a, 6, x6), Term(a, 7, x7)));
    quotient := Xor(low, high);
  }

  /** The products worked out in sections 4.1 and 4.2 of FIPS 197. */
  lemma StandardProducts()
    ensures Xor(0x57, 0x83) == 0xd4
    ensures XTime(0x57) == 0xae && XTime(0xae) == 0x47 && XTime(0x47) == 0x8e && XTime(0x8e) == 0x07
    ensures Mul(0x57, 0x13) == 0xfe && Mul(0x57, 0x83) == 0xc1
  {}
}
