/** Multiplication in GF(2^8) and the column mixing of AES (FIPS 197 sections 4.2, 5.1.3, 5.3.3). */
module Gf256 {
  import opened Bytes

  /** A small multiplier; the C code shifts it right bit by bit. */
  type Factor = n: nat | n < 256

  function Xtime(x: Byte): Byte { (x << 1) ^ ((x >> 7) * 0x1b) }

  function Gmul(a: Byte, n: Factor): Byte
    decreases n
  {
    if n == 0 then 0 else Xor(if n % 2 == 1 then a else 0, Gmul(Xtime(a), n / 2))
  }

  /** The shift-and-add loop. */
  method Mul(a: Byte, b: Factor) returns (r: Byte)
    ensures r == Gmul(a, b)
  {
    hide Xtime, Xor;
    r := 0;
    var x, y := a, b;
    XorZero(Gmul(a, b));
    while y != 0
      invariant Xor(r, Gmul(x, y)) == Gmul(a, b)
    {
      XorAssociates(r, if y % 2 == 1 then x else 0, Gmul(Xtime(x), y / 2));
      XorZero(r);
      if y % 2 == 1 { r := Xor(r, x); }
      x := Xtime(x);
      y := y / 2;
    }
    XorZero(r);
  }

  lemma XorZero(a: Byte)
    ensures Xor(a, 0) == a && Xor(0, a) == a
  {}

  lemma XorAssociates(a: Byte, b: Byte, c: Byte)
    ensures Xor(Xor(a, b), c) == Xor(a, Xor(b, c))
  {}

  lemma XorCommutes(a: Byte, b: Byte)
    ensures Xor(a, b) == Xor(b, a)
  {}

  lemma XorSwaps(a: Byte, b: Byte, c: Byte, d: Byte)
    ensures Xor(Xor(a, b), Xor(c, d)) == Xor(Xor(a, c), Xor(b, d))
  {
    hide Xor;
    XorAssociates(a, b, Xor(c, d));
    XorAssociates(b, c, d);
    XorCommutes(b, c);
    XorAssociates(c, b, d);
    XorAssociates(a, c, Xor(b, d));
  }

  // ------------------------------------------------ what the multiplication means

  type Wide = bv16

  /** A byte as a polynomial over GF(2): bit k is the coefficient of x^k. */
  function Poly(a: Byte): Wide { a as bv16 }

  function Plus(p: Wide, q: Wide): Wide { p ^ q }

  function TimesX(p: Wide): Wide { p << 1 }

  /** q times x^8 + x^4 + x^3 + x + 1, the modulus of section 4.2. */
  function TimesModulus(q: Wide): Wide { Plus(q, Plus(Up1(q), Plus(Up3(q), Plus(Up4(q), Up8(q))))) }

  function Up1(q: Wide): Wide { q << 1 }
  function Up3(q: Wide): Wide { q << 3 }
  function Up4(q: Wide): Wide { q << 4 }
  function Up8(q: Wide): Wide { q << 8 }

  function Term(b: bool, p: Wide): Wide { if b then p else 0 }

  /** The product of two polynomials of degree below 8, without reduction: a times x^i for every
      power x^i in n. */
  function Product(a: Byte, n: Factor): Wide {
    var p := Poly(a); var p1 := TimesX(p); var p2 := TimesX(p1); var p3 := TimesX(p2);
    var p4 := TimesX(p3); var p5 := TimesX(p4); var p6 := TimesX(p5); var p7 := TimesX(p6);
    var n1 := n / 2; var n2 := n1 / 2; var n3 := n2 / 2; var n4 := n3 / 2; var n5 := n4 / 2; var n6 := n5 / 2;
    Plus(Term(Odd(n), p), Plus(Term(Odd(n1), p1), Plus(Term(Odd(n2), p2), Plus(Term(Odd(n3), p3),
    Plus(Term(Odd(n4), p4), Plus(Term(Odd(n5), p5), Plus(Term(Odd(n6), p6), Term(Odd(n6 / 2), p7))))))))
  }

  function Unreduced(p: Wide, n: nat): Wide
    decreases n
  {
    if n == 0 then 0 else Plus(Term(Odd(n), p), Unreduced(TimesX(p), n / 2))
  }

  /** Multiplying by x and reducing keeps the class modulo the modulus. */
  lemma XtimeCongruent(p: Wide, q: Wide, a: Byte)
    requires p == Plus(TimesModulus(q), Poly(a))
    ensures TimesX(p) == Plus(TimesModulus(Plus(TimesX(q), Poly(a >> 7))), Poly(Xtime(a)))
  {
    hide TimesX, TimesModulus, Plus, Poly, Xtime;
    ShiftsLinear(TimesModulus(q), Poly(a));
    ModulusLinear(TimesX(q), Poly(a >> 7));
    ModulusShifts(q);
    XtimeReduces(a);
    PlusAssociates(TimesModulus(TimesX(q)), TimesModulus(Poly(a >> 7)), Poly(Xtime(a)));
  }

  lemma PlusAssociates(p: Wide, q: Wide, r: Wide)
    ensures Plus(p, Plus(q, r)) == Plus(Plus(p, q), r)
  {}

  lemma PlusCommutes(p: Wide, q: Wide)
    ensures Plus(p, q) == Plus(q, p)
  {}

  lemma PlusZero(p: Wide)
    ensures Plus(p, 0) == p && Plus(0, p) == p
  {}

  lemma ShiftsLinear(p: Wide, q: Wide)
    ensures TimesX(Plus(p, q)) == Plus(TimesX(p), TimesX(q))
  {}

  lemma ModulusLinear(p: Wide, q: Wide)
    ensures TimesModulus(Plus(p, q)) == Plus(TimesModulus(p), TimesModulus(q))
  {
    hide Plus, Up1, Up3, Up4, Up8;
    Up1Linear(p, q); Up3Linear(p, q); Up4Linear(p, q); Up8Linear(p, q);
    PlusSwaps(Up4(p), Up4(q), Up8(p), Up8(q));
    PlusSwaps(Up3(p), Up3(q), Plus(Up4(p), Up8(p)), Plus(Up4(q), Up8(q)));
    PlusSwaps(Up1(p), Up1(q), Plus(Up3(p), Plus(Up4(p), Up8(p))), Plus(Up3(q), Plus(Up4(q), Up8(q))));
    PlusSwaps(p, q, Plus(Up1(p), Plus(Up3(p), Plus(Up4(p), Up8(p)))), Plus(Up1(q), Plus(Up3(q), Plus(Up4(q), Up8(q)))));
  }

  lemma Up1Linear(p: Wide, q: Wide)
    ensures Up1(Plus(p, q)) == Plus(Up1(p), Up1(q))
  {}

  lemma Up3Linear(p: Wide, q: Wide)
    ensures Up3(Plus(p, q)) == Plus(Up3(p), Up3(q))
  {}

  lemma Up4Linear(p: Wide, q: Wide)
    ensures Up4(Plus(p, q)) == Plus(Up4(p), Up4(q))
  {}

  lemma Up8Linear(p: Wide, q: Wide)
    ensures Up8(Plus(p, q)) == Plus(Up8(p), Up8(q))
  {}

  lemma PlusSwaps(a: Wide, b: Wide, c: Wide, d: Wide)
    ensures Plus(Plus(a, b), Plus(c, d)) == Plus(Plus(a, c), Plus(b, d))
  {
    hide Plus;
    PlusAssociates(a, b, Plus(c, d));
    PlusAssociates(b, c, d);
    PlusCommutes(b, c);
    PlusAssociates(c, b, d);
    PlusAssociates(a, c, Plus(b, d));
  }

  lemma ModulusShifts(q: Wide)
    ensures TimesX(TimesModulus(q)) == TimesModulus(TimesX(q))
  {}

  lemma XtimeReduces(a: Byte)
    ensures TimesX(Poly(a)) == Plus(TimesModulus(Poly(a >> 7)), Poly(Xtime(a)))
  {}

  lemma PolyLinear(a: Byte, b: Byte)
    ensures Poly(Xor(a, b)) == Plus(Poly(a), Poly(b)) && Poly(0) == 0
  {}

  lemma PlusBound(p: Wide, q: Wide)
    requires p < 0x80 && q < 0x80
    ensures Plus(p, q) < 0x80
  {}

  lemma SumCongruent(b: bool, p: Wide, q: Wide, a: Byte, p': Wide, q': Wide, a': Byte)
    requires p == Plus(TimesModulus(q), Poly(a)) && p' == Plus(TimesModulus(q'), Poly(a'))
    ensures Plus(Term(b, p), p') == Plus(TimesModulus(Plus(Term(b, q), q')), Poly(Xor(if b then a else 0, a')))
    ensures q < 0x80 && q' < 0x80 ==> Plus(Term(b, q), q') < 0x80
  {
    hide TimesModulus, Plus, Poly, Xor;
    var u, v, u', v' := TimesModulus(q), Poly(a), TimesModulus(q'), Poly(a');
    if b {
      ModulusLinear(q, q');
      PolyLinear(a, a');
      PlusAssociates(u, v, Plus(u', v'));
      PlusAssociates(v, u', v');
      PlusCommutes(v, u');
      PlusAssociates(u', v, v');
      PlusAssociates(u, u', Plus(v, v'));
      if q < 0x80 && q' < 0x80 { PlusBound(q, q'); }
    } else {
      PlusZero(p');
      PlusZero(q');
      XorZero(a');
    }
  }

  /** How large the quotient may be while n still has digits. */
  predicate Room(l: Wide, n: nat) {
    || (l == 0x01 && n < 256) || (l == 0x02 && n < 128) || (l == 0x04 && n < 64) || (l == 0x08 && n < 32)
    || (l == 0x10 && n < 16) || (l == 0x20 && n < 8) || (l == 0x40 && n < 4) || (l == 0x80 && n < 2) || n == 0
  }

  lemma QuotientBound(l: Wide, n: nat, q: Wide, a: Byte)
    requires Room(l, n) && n > 0 && q < l
    ensures q < 0x80 && Room(l << 1, n / 2) && Plus(TimesX(q), Poly(a >> 7)) < l << 1
  {}

  lemma {:induction false} UnreducedCongruent(p: Wide, q: Wide, a: Byte, n: Factor, l: Wide) returns (r: Wide)
    requires p == Plus(TimesModulus(q), Poly(a)) && Room(l, n) && (n > 0 ==> q < l)
    ensures r < 0x80 && Unreduced(p, n) == Plus(TimesModulus(r), Poly(Gmul(a, n)))
    decreases n
  {
    hide Xtime, Xor, Plus, TimesX, TimesModulus, Poly, Term, Room, Odd;
    if n == 0 {
      NothingCongruent();
      r := 0;
    } else {
      XtimeCongruent(p, q, a);
      QuotientBound(l, n, q, a);
      var r' := UnreducedCongruent(TimesX(p), Plus(TimesX(q), Poly(a >> 7)), Xtime(a), n / 2, l << 1);
      SumCongruent(Odd(n), p, q, a, Unreduced(TimesX(p), n / 2), r', Gmul(Xtime(a), n / 2));
      OddIs(n);
      r := Plus(Term(Odd(n), q), r');
    }
  }

  lemma OddIs(n: nat)
    ensures Odd(n) <==> n % 2 == 1
  {}

  lemma NothingCongruent()
    ensures Plus(TimesModulus(0), Poly(0)) == 0
  {}

  lemma UnreducedStep(p: Wide, n: nat)
    ensures Unreduced(p, n) == Plus(Term(Odd(n), p), Unreduced(TimesX(p), n / 2))
  {
    if n == 0 { assert n / 2 == 0; }
  }

  lemma UnreducedIsProduct(a: Byte, n: Factor)
    ensures Unreduced(Poly(a), n) == Product(a, n)
  {
    hide Unreduced, Term, Poly, Odd, TimesX, Plus;
    var p := Poly(a); var p1 := TimesX(p); var p2 := TimesX(p1); var p3 := TimesX(p2);
    var p4 := TimesX(p3); var p5 := TimesX(p4); var p6 := TimesX(p5); var p7 := TimesX(p6);
    var n1 := n / 2; var n2 := n1 / 2; var n3 := n2 / 2; var n4 := n3 / 2; var n5 := n4 / 2; var n6 := n5 / 2; var n7 := n6 / 2;
    UnreducedStep(p, n); UnreducedStep(p1, n1); UnreducedStep(p2, n2); UnreducedStep(p3, n3);
    UnreducedStep(p4, n4); UnreducedStep(p5, n5); UnreducedStep(p6, n6); UnreducedStep(p7, n7);
    assert n7 / 2 == 0;
    UnreducedNothing(TimesX(p7));
    PlusZero(Term(Odd(n7), p7));
  }

  lemma UnreducedNothing(p: Wide)
    ensures Unreduced(p, 0) == 0
  {}

  /** The shift-and-add product is the remainder of the polynomial product: the two differ by a
      multiple of the modulus, and the quotient (of degree below 7) leaves no overflow. */
  lemma GmulIsProduct(a: Byte, n: Factor) returns (q: Wide)
    ensures q < 0x80 && Product(a, n) == Plus(TimesModulus(q), Poly(Gmul(a, n)))
  {
    hide Xtime, Gmul, Product, Unreduced, Term;
    UnreducedIsProduct(a, n);
    q := UnreducedCongruent(Poly(a), 0, a, n, 1);
  }

  lemma XtimeXor(a: Byte, b: Byte)
    ensures Xtime(Xor(a, b)) == Xor(Xtime(a), Xtime(b))
  {}

  lemma {:induction false} GmulXor(a: Byte, b: Byte, n: Factor)
    ensures Gmul(Xor(a, b), n) == Xor(Gmul(a, n), Gmul(b, n))
    decreases n
  {
    hide Xtime, Xor;
    XorZero(0);
    if n != 0 {
      XtimeXor(a, b);
      GmulXor(Xtime(a), Xtime(b), n / 2);
      XorSwaps(if n % 2 == 1 then a else 0, if n % 2 == 1 then b else 0,
        Gmul(Xtime(a), n / 2), Gmul(Xtime(b), n / 2));
    }
  }

  lemma GmulSmall(a: Byte)
    ensures Gmul(a, 1) == a && Gmul(a, 2) == Xtime(a) && Gmul(a, 3) == Xor(a, Xtime(a))
  {
    hide Xtime, Xor;
    XorZero(a);
    XorZero(Xtime(a));
    assert Gmul(Xtime(a), 1) == Xor(Xtime(a), Gmul(Xtime(Xtime(a)), 0));
  }

  lemma GmulLarge(a: Byte)
    ensures var b := Xtime(a); var c := Xtime(b); var d := Xtime(c);
      Gmul(a, 9) == Xor(a, d) && Gmul(a, 11) == Xor(a, Xor(b, d)) && Gmul(a, 13) == Xor(a, Xor(c, d))
      && Gmul(a, 14) == Xor(b, Xor(c, d))
  {
    hide Xtime, Xor;
    var b := Xtime(a); var c := Xtime(b); var d := Xtime(c);
    GmulSmall(d);
    GmulSmall(c);
    XorZero(d);
    XorZero(Xor(c, d));
    XorZero(Xor(b, Xor(c, d)));
    assert Gmul(b, 4) == Xor(0, Gmul(c, 2)) && Gmul(b, 5) == Xor(b, Gmul(c, 2));
    assert Gmul(b, 6) == Xor(0, Gmul(c, 3)) && Gmul(b, 7) == Xor(b, Gmul(c, 3));
    assert Gmul(a, 9) == Xor(a, Gmul(b, 4)) && Gmul(a, 11) == Xor(a, Gmul(b, 5));
    assert Gmul(a, 13) == Xor(a, Gmul(b, 6)) && Gmul(a, 14) == Xor(0, Gmul(b, 7));
  }

  function Xor4(p: Byte, q: Byte, r: Byte, s: Byte): Byte { Xor(Xor(Xor(p, q), r), s) }

  lemma Xor4Rotates(p: Byte, q: Byte, r: Byte, s: Byte)
    ensures Xor4(p, q, r, s) == Xor4(q, r, s, p)
  {
    hide Xor;
    XorAssociates(p, q, r);
    XorAssociates(p, Xor(q, r), s);
    XorCommutes(p, Xor(Xor(q, r), s));
  }

  lemma Xor4Swaps(p: Byte, q: Byte, r: Byte, s: Byte, p': Byte, q': Byte, r': Byte, s': Byte)
    ensures Xor(Xor4(p, q, r, s), Xor4(p', q', r', s')) == Xor4(Xor(p, p'), Xor(q, q'), Xor(r, r'), Xor(s, s'))
  {
    hide Xor;
    XorSwaps(Xor(Xor(p, q), r), s, Xor(Xor(p', q'), r'), s');
    XorSwaps(Xor(p, q), r, Xor(p', q'), r');
    XorSwaps(p, q, p', q');
  }

  /** The sum of four row sums is the sum of the four column sums. */
  lemma Xor4Transposes(
    a0: Byte, a1: Byte, a2: Byte, a3: Byte, b0: Byte, b1: Byte, b2: Byte, b3: Byte,
    c0: Byte, c1: Byte, c2: Byte, c3: Byte, d0: Byte, d1: Byte, d2: Byte, d3: Byte)
    ensures Xor4(Xor4(a0, a1, a2, a3), Xor4(b0, b1, b2, b3), Xor4(c0, c1, c2, c3), Xor4(d0, d1, d2, d3))
         == Xor4(Xor4(a0, b0, c0, d0), Xor4(a1, b1, c1, d1), Xor4(a2, b2, c2, d2), Xor4(a3, b3, c3, d3))
  {
    hide Xor;
    Xor4Swaps(a0, a1, a2, a3, b0, b1, b2, b3);
    Xor4Swaps(Xor(a0, b0), Xor(a1, b1), Xor(a2, b2), Xor(a3, b3), c0, c1, c2, c3);
    Xor4Swaps(Xor(Xor(a0, b0), c0), Xor(Xor(a1, b1), c1), Xor(Xor(a2, b2), c2), Xor(Xor(a3, b3), c3), d0, d1, d2, d3);
  }

  lemma GmulXor4(p: Byte, q: Byte, r: Byte, s: Byte, n: Factor)
    ensures Gmul(Xor4(p, q, r, s), n) == Xor4(Gmul(p, n), Gmul(q, n), Gmul(r, n), Gmul(s, n))
  {
    hide Xor, Gmul;
    GmulXor(Xor(Xor(p, q), r), s, n);
    GmulXor(Xor(p, q), r, n);
    GmulXor(p, q, n);
  }

  /** First byte of a mixed column. */
  function Mix1(a: Byte, b: Byte, c: Byte, d: Byte): Byte { Xor4(Gmul(a, 2), Gmul(b, 3), c, d) }

  function InvMix1(a: Byte, b: Byte, c: Byte, d: Byte): Byte {
    Xor4(Gmul(a, 14), Gmul(b, 11), Gmul(c, 13), Gmul(d, 9))
  }

  /** The powers of x times a byte, as the constants of both matrices use them. */
  lemma Products(a: Byte)
    ensures var b := Xtime(a); var c := Xtime(b); var d := Xtime(c); var e := Xtime(d);
      && Gmul(Gmul(a, 2), 9) == Xor(b, e) && Gmul(Gmul(a, 2), 11) == Xor(b, Xor(c, e))
      && Gmul(Gmul(a, 2), 13) == Xor(b, Xor(d, e)) && Gmul(Gmul(a, 2), 14) == Xor(c, Xor(d, e))
      && Gmul(Gmul(a, 3), 9) == Xor(Xor(a, d), Xor(b, e))
      && Gmul(Gmul(a, 3), 11) == Xor(Xor(a, Xor(b, d)), Xor(b, Xor(c, e)))
      && Gmul(Gmul(a, 3), 13) == Xor(Xor(a, Xor(c, d)), Xor(b, Xor(d, e)))
      && Gmul(Gmul(a, 3), 14) == Xor(Xor(b, Xor(c, d)), Xor(c, Xor(d, e)))
  {
    hide Xor, Xtime, Gmul;
    GmulSmall(a);
    GmulLarge(a);
    GmulLarge(Xtime(a));
    GmulXor(a, Xtime(a), 9);
    GmulXor(a, Xtime(a), 11);
    GmulXor(a, Xtime(a), 13);
    GmulXor(a, Xtime(a), 14);
  }

  lemma ProductsCommute(a: Byte, n: Factor)
    requires n == 9 || n == 11 || n == 13 || n == 14
    ensures Gmul(Gmul(a, n), 2) == Gmul(Gmul(a, 2), n)
    ensures Gmul(Gmul(a, n), 3) == Gmul(Gmul(a, 3), n)
  {
    hide Xor, Xtime, Gmul;
    var b := Xtime(a); var c := Xtime(b); var d := Xtime(c);
    GmulLarge(a);
    GmulLarge(b);
    GmulSmall(a);
    GmulSmall(Gmul(a, n));
    XtimeXor(a, d); XtimeXor(b, d); XtimeXor(c, d);
    XtimeXor(a, Xor(b, d)); XtimeXor(a, Xor(c, d)); XtimeXor(b, Xor(c, d));
    GmulXor(a, b, n);
  }

  lemma XorTelescopes(a: Byte, b: Byte, c: Byte)
    ensures Xor(Xor(a, b), Xor(b, c)) == Xor(a, c)
  {}

  lemma XorCommon(a: Byte, b: Byte, c: Byte)
    ensures Xor(Xor(a, b), Xor(a, c)) == Xor(b, c)
  {}

  lemma XorAbsorbs(a: Byte, b: Byte)
    ensures Xor(a, Xor(b, a)) == b && Xor(a, Xor(a, b)) == b && Xor(a, a) == 0
  {}

  lemma XorExchanges(a: Byte, b: Byte, c: Byte)
    ensures Xor(a, Xor(b, c)) == Xor(b, Xor(a, c))
  {}

  /** The sums left over by the powers 1, x, .., x^4 of a byte cancel. */
  lemma Cancel0(a: Byte, b: Byte, c: Byte, d: Byte, e: Byte)
    ensures Xor4(Xor(c, Xor(d, e)), Xor(a, Xor(b, d)), Xor(a, Xor(c, d)), Xor(Xor(a, d), Xor(b, e))) == a
  {
    hide Xor;
    var p, m := Xor(c, Xor(d, e)), Xor(b, e);
    XorAssociates(p, Xor(a, Xor(b, d)), Xor(a, Xor(c, d)));
    XorCommon(a, Xor(b, d), Xor(c, d));
    XorCommutes(c, d);
    XorTelescopes(b, d, c);
    XorCommutes(p, Xor(b, c));
    XorTelescopes(b, c, Xor(d, e));
    XorExchanges(b, d, e);
    XorCommutes(a, d);
    XorAssociates(d, a, m);
    XorCommon(d, m, Xor(a, m));
    XorAbsorbs(m, a);
  }

  lemma Cancel1(a: Byte, b: Byte, c: Byte, d: Byte, e: Byte)
    ensures Xor4(Xor(Xor(b, Xor(c, d)), Xor(c, Xor(d, e))), Xor(b, Xor(c, e)), Xor(a, Xor(c, d)), Xor(a, d)) == 0
  {
    hide Xor;
    XorAssociates(c, d, e);
    XorTelescopes(b, Xor(c, d), e);
    XorCommon(b, e, Xor(c, e));
    XorAbsorbs(e, c);
    XorExchanges(a, c, d);
    XorAbsorbs(c, Xor(a, d));
    XorAbsorbs(Xor(a, d), 0);
  }

  lemma Cancel2(a: Byte, b: Byte, c: Byte, d: Byte, e: Byte)
    ensures Xor4(Xor(b, Xor(c, d)), Xor(Xor(a, Xor(b, d)), Xor(b, Xor(c, e))), Xor(b, Xor(d, e)), Xor(a, d)) == 0
  {
    hide Xor;
    var m, p, r := Xor(c, e), Xor(b, Xor(c, d)), Xor(b, Xor(d, e));
    var q := Xor(Xor(a, Xor(b, d)), Xor(b, m));
    XorAssociates(a, Xor(b, d), Xor(b, m));
    XorCommon(b, d, m);
    XorAssociates(p, q, r);
    XorCommutes(q, r);
    XorAssociates(p, r, q);
    XorCommon(b, Xor(c, d), Xor(d, e));
    XorTelescopes(c, d, e);
    XorExchanges(m, a, Xor(d, m));
    XorAbsorbs(m, d);
    XorAbsorbs(Xor(a, d), 0);
  }

  lemma Cancel3(a: Byte, b: Byte, c: Byte, d: Byte, e: Byte)
    ensures Xor4(Xor(b, Xor(c, d)), Xor(a, Xor(b, d)), Xor(Xor(a, Xor(c, d)), Xor(b, Xor(d, e))), Xor(b, e)) == 0
  {
    hide Xor;
    var m := Xor(c, d);
    XorExchanges(a, b, d);
    XorCommon(b, m, Xor(a, d));
    XorExchanges(m, a, d);
    XorAssociates(a, m, d);
    XorCommon(Xor(a, m), d, Xor(b, Xor(d, e)));
    XorExchanges(b, d, e);
    XorAbsorbs(d, Xor(b, e));
    XorAbsorbs(Xor(b, e), 0);
  }

  /** The columns of InvMixColumns times MixColumns. */
  lemma MatrixIdentity(a: Byte)
    ensures Xor4(Gmul(Gmul(a, 2), 14), Gmul(a, 11), Gmul(a, 13), Gmul(Gmul(a, 3), 9)) == a
    ensures Xor4(Gmul(Gmul(a, 3), 14), Gmul(Gmul(a, 2), 11), Gmul(a, 13), Gmul(a, 9)) == 0
    ensures Xor4(Gmul(a, 14), Gmul(Gmul(a, 3), 11), Gmul(Gmul(a, 2), 13), Gmul(a, 9)) == 0
    ensures Xor4(Gmul(a, 14), Gmul(a, 11), Gmul(Gmul(a, 3), 13), Gmul(Gmul(a, 2), 9)) == 0
  {
    hide Xtime, Gmul, Xor, Xor4;
    var b := Xtime(a); var c := Xtime(b); var d := Xtime(c); var e := Xtime(d);
    Products(a);
    GmulLarge(a);
    Cancel0(a, b, c, d, e);
    Cancel1(a, b, c, d, e);
    Cancel2(a, b, c, d, e);
    Cancel3(a, b, c, d, e);
  }

  lemma Xor4Unit(a: Byte)
    ensures Xor4(a, 0, 0, 0) == a
  {}

  lemma InvMix1Undoes(a: Byte, b: Byte, c: Byte, d: Byte)
    ensures InvMix1(Mix1(a, b, c, d), Mix1(b, c, d, a), Mix1(c, d, a, b), Mix1(d, a, b, c)) == a
  {
    hide Xor, Gmul, Xor4;
    Xor4Rotates(Gmul(b, 2), Gmul(c, 3), d, a); Xor4Rotates(Gmul(c, 3), d, a, Gmul(b, 2)); Xor4Rotates(d, a, Gmul(b, 2), Gmul(c, 3));
    Xor4Rotates(Gmul(c, 2), Gmul(d, 3), a, b); Xor4Rotates(Gmul(d, 3), a, b, Gmul(c, 2));
    Xor4Rotates(Gmul(d, 2), Gmul(a, 3), b, c);
    GmulXor4(Gmul(a, 2), Gmul(b, 3), c, d, 14);
    GmulXor4(a, Gmul(b, 2), Gmul(c, 3), d, 11);
    GmulXor4(a, b, Gmul(c, 2), Gmul(d, 3), 13);
    GmulXor4(Gmul(a, 3), b, c, Gmul(d, 2), 9);
    Xor4Transposes(
      Gmul(Gmul(a, 2), 14), Gmul(Gmul(b, 3), 14), Gmul(c, 14), Gmul(d, 14),
      Gmul(a, 11), Gmul(Gmul(b, 2), 11), Gmul(Gmul(c, 3), 11), Gmul(d, 11),
      Gmul(a, 13), Gmul(b, 13), Gmul(Gmul(c, 2), 13), Gmul(Gmul(d, 3), 13),
      Gmul(Gmul(a, 3), 9), Gmul(b, 9), Gmul(c, 9), Gmul(Gmul(d, 2), 9));
    MatrixIdentity(a); MatrixIdentity(b); MatrixIdentity(c); MatrixIdentity(d);
    Xor4Unit(a);
  }

  /** The columns of MixColumns times InvMixColumns, from the other order by commuting factors. */
  lemma MatrixIdentity'(a: Byte)
    ensures Xor4(Gmul(Gmul(a, 14), 2), Gmul(Gmul(a, 9), 3), Gmul(a, 13), Gmul(a, 11)) == a
    ensures Xor4(Gmul(Gmul(a, 11), 2), Gmul(Gmul(a, 14), 3), Gmul(a, 9), Gmul(a, 13)) == 0
    ensures Xor4(Gmul(Gmul(a, 13), 2), Gmul(Gmul(a, 11), 3), Gmul(a, 14), Gmul(a, 9)) == 0
    ensures Xor4(Gmul(Gmul(a, 9), 2), Gmul(Gmul(a, 13), 3), Gmul(a, 11), Gmul(a, 14)) == 0
  {
    hide Xtime, Gmul, Xor, Xor4;
    MatrixIdentity(a);
    ProductsCommute(a, 9); ProductsCommute(a, 11); ProductsCommute(a, 13); ProductsCommute(a, 14);
    Xor4Reflects(Gmul(Gmul(a, 2), 14), Gmul(a, 11), Gmul(a, 13), Gmul(Gmul(a, 3), 9));
    Xor4Reflects(Gmul(Gmul(a, 3), 14), Gmul(Gmul(a, 2), 11), Gmul(a, 13), Gmul(a, 9));
    Xor4Reflects(Gmul(a, 14), Gmul(Gmul(a, 3), 11), Gmul(Gmul(a, 2), 13), Gmul(a, 9));
    Xor4Reflects(Gmul(a, 14), Gmul(a, 11), Gmul(Gmul(a, 3), 13), Gmul(Gmul(a, 2), 9));
  }

  lemma Xor4Reverses(p: Byte, q: Byte, r: Byte, s: Byte)
    ensures Xor4(p, q, r, s) == Xor4(s, r, q, p)
  {
    hide Xor;
    XorCommutes(Xor(Xor(p, q), r), s);
    XorCommutes(Xor(p, q), r);
    XorCommutes(p, q);
    XorAssociates(s, r, Xor(q, p));
    XorAssociates(Xor(s, r), q, p);
  }

  lemma Xor4Reflects(p: Byte, q: Byte, r: Byte, s: Byte)
    ensures Xor4(p, q, r, s) == Xor4(p, s, r, q) == Xor4(r, q, p, s) == Xor4(q, p, s, r) == Xor4(s, r, q, p)
  {
    hide Xor4;
    Xor4Reverses(p, q, r, s);
    Xor4Rotates(s, r, q, p);
    Xor4Rotates(r, q, p, s);
    Xor4Rotates(q, p, s, r);
  }

  lemma Mix1Undoes(a: Byte, b: Byte, c: Byte, d: Byte)
    ensures Mix1(InvMix1(a, b, c, d), InvMix1(b, c, d, a), InvMix1(c, d, a, b), InvMix1(d, a, b, c)) == a
  {
    hide Xor, Gmul, Xor4;
    var e, f := InvMix1(a, b, c, d), InvMix1(b, c, d, a);
    InvMix1Rotates(b, c, d, a); InvMix1Rotates(c, d, a, b); InvMix1Rotates(d, a, b, c);
    GmulXor4(Gmul(a, 14), Gmul(b, 11), Gmul(c, 13), Gmul(d, 9), 2);
    GmulXor4(Gmul(a, 9), Gmul(b, 14), Gmul(c, 11), Gmul(d, 13), 3);
    Xor4Transposes(
      Gmul(Gmul(a, 14), 2), Gmul(Gmul(b, 11), 2), Gmul(Gmul(c, 13), 2), Gmul(Gmul(d, 9), 2),
      Gmul(Gmul(a, 9), 3), Gmul(Gmul(b, 14), 3), Gmul(Gmul(c, 11), 3), Gmul(Gmul(d, 13), 3),
      Gmul(a, 13), Gmul(b, 9), Gmul(c, 14), Gmul(d, 11),
      Gmul(a, 11), Gmul(b, 13), Gmul(c, 9), Gmul(d, 14));
    MatrixIdentity'(a); MatrixIdentity'(b); MatrixIdentity'(c); MatrixIdentity'(d);
    Xor4Unit(a);
  }

  lemma InvMix1Rotates(a: Byte, b: Byte, c: Byte, d: Byte)
    ensures InvMix1(a, b, c, d) == Xor4(Gmul(d, 9), Gmul(a, 14), Gmul(b, 11), Gmul(c, 13))
    ensures InvMix1(a, b, c, d) == Xor4(Gmul(c, 13), Gmul(d, 9), Gmul(a, 14), Gmul(b, 11))
    ensures InvMix1(a, b, c, d) == Xor4(Gmul(b, 11), Gmul(c, 13), Gmul(d, 9), Gmul(a, 14))
  {
    hide Xor, Gmul, Xor4;
    var p, q, r, s := Gmul(a, 14), Gmul(b, 11), Gmul(c, 13), Gmul(d, 9);
    Xor4Rotates(p, q, r, s); Xor4Rotates(q, r, s, p); Xor4Rotates(r, s, p, q);
  }

  /** One column of the AES state. */
  datatype Column = Column(a: Byte, b: Byte, c: Byte, d: Byte)

  /** The sums in the order FIPS 197 writes them. */
  function MixColumn(s: Column): Column {
    Column(
      Xor4(Gmul(s.a, 2), Gmul(s.b, 3), s.c, s.d), Xor4(s.a, Gmul(s.b, 2), Gmul(s.c, 3), s.d),
      Xor4(s.a, s.b, Gmul(s.c, 2), Gmul(s.d, 3)), Xor4(Gmul(s.a, 3), s.b, s.c, Gmul(s.d, 2)))
  }

  function InvMixColumn(s: Column): Column {
    Column(
      Xor4(Gmul(s.a, 14), Gmul(s.b, 11), Gmul(s.c, 13), Gmul(s.d, 9)),
      Xor4(Gmul(s.a, 9), Gmul(s.b, 14), Gmul(s.c, 11), Gmul(s.d, 13)),
      Xor4(Gmul(s.a, 13), Gmul(s.b, 9), Gmul(s.c, 14), Gmul(s.d, 11)),
      Xor4(Gmul(s.a, 11), Gmul(s.b, 13), Gmul(s.c, 9), Gmul(s.d, 14)))
  }

  lemma MixRotates(s: Column)
    ensures MixColumn(s) == Column(Mix1(s.a, s.b, s.c, s.d), Mix1(s.b, s.c, s.d, s.a),
                                   Mix1(s.c, s.d, s.a, s.b), Mix1(s.d, s.a, s.b, s.c))
  {
    hide Xor4, Gmul;
    Xor4Rotates(s.a, Gmul(s.b, 2), Gmul(s.c, 3), s.d);
    Xor4Rotates(s.a, s.b, Gmul(s.c, 2), Gmul(s.d, 3)); Xor4Rotates(s.b, Gmul(s.c, 2), Gmul(s.d, 3), s.a);
    Xor4Rotates(Gmul(s.d, 2), Gmul(s.a, 3), s.b, s.c);
  }

  lemma InvMixRotates(s: Column)
    ensures InvMixColumn(s) == Column(InvMix1(s.a, s.b, s.c, s.d), InvMix1(s.b, s.c, s.d, s.a),
                                      InvMix1(s.c, s.d, s.a, s.b), InvMix1(s.d, s.a, s.b, s.c))
  {
    hide Xor4, Gmul;
    Xor4Rotates(Gmul(s.a, 9), Gmul(s.b, 14), Gmul(s.c, 11), Gmul(s.d, 13));
    Xor4Rotates(Gmul(s.a, 13), Gmul(s.b, 9), Gmul(s.c, 14), Gmul(s.d, 11));
    Xor4Rotates(Gmul(s.b, 9), Gmul(s.c, 14), Gmul(s.d, 11), Gmul(s.a, 13));
    Xor4Rotates(Gmul(s.d, 14), Gmul(s.a, 11), Gmul(s.b, 13), Gmul(s.c, 9));
  }

  /** InvMixColumns and MixColumns undo each other on every column. */
  lemma MixColumnInverse(s: Column)
    ensures InvMixColumn(MixColumn(s)) == s && MixColumn(InvMixColumn(s)) == s
  {
    hide MixColumn, InvMixColumn, Mix1, InvMix1;
    MixRotates(s);
    InvMixRotates(MixColumn(s));
    InvMixRotates(s);
    MixRotates(InvMixColumn(s));
    InvMix1Undoes(s.a, s.b, s.c, s.d); InvMix1Undoes(s.b, s.c, s.d, s.a);
    InvMix1Undoes(s.c, s.d, s.a, s.b); InvMix1Undoes(s.d, s.a, s.b, s.c);
    Mix1Undoes(s.a, s.b, s.c, s.d); Mix1Undoes(s.b, s.c, s.d, s.a);
    Mix1Undoes(s.c, s.d, s.a, s.b); Mix1Undoes(s.d, s.a, s.b, s.c);
  }
}
