/** How FIPS 197 section 5.1.1 defines the S-box: the inverse in GF(2^8), then an affine map. */
module SBoxLaw {
  import opened Bytes
  import opened Gf256
  import opened SBoxes

  // ------------------------------------------------ the product, bit by bit

  function Part(on: bool, a: Byte): Byte { if on then a else 0 }

  /** The sum of the multiples x^k * a for the bits that are set. */
  function Combine(a: Byte, b0: bool, b1: bool, b2: bool, b3: bool, b4: bool, b5: bool, b6: bool, b7: bool): Byte {
    var a1 := Xtime(a); var a2 := Xtime(a1); var a3 := Xtime(a2); var a4 := Xtime(a3);
    var a5 := Xtime(a4); var a6 := Xtime(a5); var a7 := Xtime(a6);
    Part(b0, a) ^ Part(b1, a1) ^ Part(b2, a2) ^ Part(b3, a3) ^ Part(b4, a4) ^ Part(b5, a5) ^ Part(b6, a6) ^ Part(b7, a7)
  }

  function Times(a: Byte, b: Byte): Byte {
    Combine(a, b & 1 != 0, b & 2 != 0, b & 4 != 0, b & 8 != 0, b & 16 != 0, b & 32 != 0, b & 64 != 0, b & 128 != 0)
  }

  lemma OneBit(a: Byte, on: bool, n: Factor, rest: nat)
    requires n == Weight(on, 1) + 2 * rest
    ensures rest < 256 && Gmul(a, n) == Xor(Part(on, a), Gmul(Xtime(a), rest))
  {
    hide Xor, Xtime;
    assert n / 2 == rest && n % 2 == Weight(on, 1);
    if n == 0 { XorZero(0); }
  }

  /** Four bits at a time. */
  lemma GmulNibble(a: Byte, b0: bool, b1: bool, b2: bool, b3: bool, rest: nat)
    requires rest < 16
    ensures var a1 := Xtime(a); var a2 := Xtime(a1); var a3 := Xtime(a2);
      Gmul(a, Weight(b0, 1) + Weight(b1, 2) + Weight(b2, 4) + Weight(b3, 8) + 16 * rest) ==
        Xor(Part(b0, a), Xor(Part(b1, a1), Xor(Part(b2, a2), Xor(Part(b3, a3), Gmul(Xtime(a3), rest)))))
  {
    hide Xor, Xtime, Gmul, Part;
    var a1 := Xtime(a); var a2 := Xtime(a1); var a3 := Xtime(a2);
    var n3 := Weight(b3, 1) + 2 * rest; var n2 := Weight(b2, 1) + 2 * n3;
    var n1 := Weight(b1, 1) + 2 * n2; var n := Weight(b0, 1) + 2 * n1;
    OneBit(a, b0, n, n1); OneBit(a1, b1, n1, n2); OneBit(a2, b2, n2, n3); OneBit(a3, b3, n3, rest);
  }

  lemma GmulBits(a: Byte, b0: bool, b1: bool, b2: bool, b3: bool, b4: bool, b5: bool, b6: bool, b7: bool)
    ensures var a1 := Xtime(a); var a2 := Xtime(a1); var a3 := Xtime(a2); var a4 := Xtime(a3);
      var a5 := Xtime(a4); var a6 := Xtime(a5); var a7 := Xtime(a6);
      Gmul(a, Sum(b0, b1, b2, b3, b4, b5, b6, b7)) ==
        Xor(Part(b0, a), Xor(Part(b1, a1), Xor(Part(b2, a2), Xor(Part(b3, a3),
          Xor(Part(b4, a4), Xor(Part(b5, a5), Xor(Part(b6, a6), Xor(Part(b7, a7), 0))))))))
  {
    hide Xor, Xtime, Gmul, Part, Sum;
    var a4 := Xtime(Xtime(Xtime(Xtime(a))));
    var high := Weight(b4, 1) + Weight(b5, 2) + Weight(b6, 4) + Weight(b7, 8);
    SumNibbles(b0, b1, b2, b3, b4, b5, b6, b7);
    GmulNibble(a, b0, b1, b2, b3, high);
    GmulNibble(a4, b4, b5, b6, b7, 0);
    GmulNothing(Xtime(Xtime(Xtime(Xtime(a4)))));
  }

  lemma SumNibbles(b0: bool, b1: bool, b2: bool, b3: bool, b4: bool, b5: bool, b6: bool, b7: bool)
    ensures Sum(b0, b1, b2, b3, b4, b5, b6, b7) ==
      Weight(b0, 1) + Weight(b1, 2) + Weight(b2, 4) + Weight(b3, 8)
      + 16 * (Weight(b4, 1) + Weight(b5, 2) + Weight(b6, 4) + Weight(b7, 8))
  {}

  lemma GmulNothing(a: Byte)
    ensures Gmul(a, 0) == 0
  {}

  lemma Regroup4(p: Byte, q: Byte, r: Byte, s: Byte, t: Byte)
    ensures Xor(p, Xor(q, Xor(r, Xor(s, t)))) == Xor(p ^ q ^ r ^ s, t)
  {}

  lemma Regroup(p: Byte, q: Byte, r: Byte, s: Byte, t: Byte, u: Byte, v: Byte, w: Byte)
    ensures Xor(p, Xor(q, Xor(r, Xor(s, Xor(t, Xor(u, Xor(v, Xor(w, 0)))))))) == p ^ q ^ r ^ s ^ t ^ u ^ v ^ w
  {
    Regroup4(p, q, r, s, Xor(t, Xor(u, Xor(v, Xor(w, 0)))));
    Regroup4(t, u, v, w, 0);
  }

  lemma CombineIsGmul(a: Byte, b0: bool, b1: bool, b2: bool, b3: bool, b4: bool, b5: bool, b6: bool, b7: bool)
    ensures Combine(a, b0, b1, b2, b3, b4, b5, b6, b7) == Gmul(a, Sum(b0, b1, b2, b3, b4, b5, b6, b7))
  {
    hide Xor, Xtime, Gmul, Sum, Part;
    var a1 := Xtime(a); var a2 := Xtime(a1); var a3 := Xtime(a2); var a4 := Xtime(a3);
    var a5 := Xtime(a4); var a6 := Xtime(a5); var a7 := Xtime(a6);
    GmulBits(a, b0, b1, b2, b3, b4, b5, b6, b7);
    Regroup(Part(b0, a), Part(b1, a1), Part(b2, a2), Part(b3, a3), Part(b4, a4), Part(b5, a5), Part(b6, a6), Part(b7, a7));
  }

  lemma TimesIsGmul(a: Byte, b: Byte)
    ensures Times(a, b) == Gmul(a, Value(b))
  {
    hide Combine, Gmul, Sum;
    CombineIsGmul(a, b & 1 != 0, b & 2 != 0, b & 4 != 0, b & 8 != 0, b & 16 != 0, b & 32 != 0, b & 64 != 0, b & 128 != 0);
  }

  // ------------------------------------------------ the affine map

  function Rotl1(z: Byte): Byte { (z << 1) | (z >> 7) }
  function Rotl3(z: Byte): Byte { (z << 3) | (z >> 5) }
  function Rotl6(z: Byte): Byte { (z << 6) | (z >> 2) }

  /** The affine map undone. */
  function Preimage(y: Byte): Byte {
    var z := Xor(y, 0x63);
    Xor(Xor(Rotl1(z), Rotl3(z)), Rotl6(z))
  }

  predicate Law(x: Byte) { if x == 0 then Preimage(SBox(x)) == 0 else Times(x, Preimage(SBox(x))) == 1 }

  lemma LawBelow40(x: Byte)
    ensures x < 0x40 ==> Law(x)
  {}

  lemma LawBelow80(x: Byte)
    ensures 0x40 <= x < 0x80 ==> Law(x)
  {}

  lemma LawBelowC0(x: Byte)
    ensures 0x80 <= x < 0xc0 ==> Law(x)
  {}

  lemma LawAbove(x: Byte)
    ensures 0xc0 <= x ==> Law(x)
  {}

  lemma LawHolds(x: Byte)
    ensures Law(x)
  {
    hide Law;
    LawBelow40(x); LawBelow80(x); LawBelowC0(x); LawAbove(x);
  }

  /** Undoing the affine map leaves the inverse of the byte in GF(2^8), and 0 for the byte 0. */
  lemma SBoxIsInverse(x: Byte)
    ensures if x == 0 then Preimage(SBox(x)) == 0 else Gmul(x, Value(Preimage(SBox(x)))) == 1
  {
    hide SBox, Preimage, Times, Gmul;
    LawHolds(x);
    TimesIsGmul(x, Preimage(SBox(x)));
  }

  /** The affine map as the standard writes it: b + rotl(b, 1) + .. + rotl(b, 4) + 0x63. */
  lemma Affine(b: Byte)
    ensures var y := b ^ Rotl1(b) ^ ((b << 2) | (b >> 6)) ^ Rotl3(b) ^ ((b << 4) | (b >> 4)) ^ 0x63;
      Preimage(y) == b
  {}
}
