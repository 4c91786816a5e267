/** Bytes, byte strings and exclusive or. */
module Bytes {
  type Byte = bv8
  type Octets = seq<Byte>

  /** An IEEE 802 address. */
  type Mac = m: Octets | |m| == 6 witness [0, 0, 0, 0, 0, 0]

  function Xor(a: Byte, b: Byte): Byte { a ^ b }

  function XorSeq(a: Octets, b: Octets): (r: Octets)
    requires |a| == |b|
    ensures |r| == |a| && forall i :: 0 <= i < |a| ==> r[i] == Xor(a[i], b[i])
  {
    seq(|a|, i requires 0 <= i < |a| => Xor(a[i], b[i]))
  }

  lemma XorCancels(a: Byte, b: Byte)
    ensures Xor(Xor(a, b), b) == a
  {}

  lemma XorSeqCancels(a: Octets, b: Octets)
    requires |a| == |b|
    ensures XorSeq(XorSeq(a, b), b) == a
  {
    hide Xor;
    forall i | 0 <= i < |a| ensures XorSeq(XorSeq(a, b), b)[i] == a[i] { XorCancels(a[i], b[i]); }
  }

  // ---------------------------------------------- bytes and numbers, bit by bit

  function Weight(b: bool, w: nat): nat { if b then w else 0 }

  function Sum(b0: bool, b1: bool, b2: bool, b3: bool, b4: bool, b5: bool, b6: bool, b7: bool): (n: nat)
    ensures n < 256
  {
    Weight(b0, 1) + Weight(b1, 2) + Weight(b2, 4) + Weight(b3, 8)
    + Weight(b4, 16) + Weight(b5, 32) + Weight(b6, 64) + Weight(b7, 128)
  }

  function Value(b: Byte): (n: nat)
    ensures n < 256
  {
    Sum(b & 1 != 0, b & 2 != 0, b & 4 != 0, b & 8 != 0, b & 16 != 0, b & 32 != 0, b & 64 != 0, b & 128 != 0)
  }

  function Mask(b: bool, m: Byte): Byte { if b then m else 0 }

  function Join(b0: bool, b1: bool, b2: bool, b3: bool, b4: bool, b5: bool, b6: bool, b7: bool): Byte {
    Mask(b0, 1) | Mask(b1, 2) | Mask(b2, 4) | Mask(b3, 8) | Mask(b4, 16) | Mask(b5, 32) | Mask(b6, 64) | Mask(b7, 128)
  }

  predicate Odd(n: nat) { n % 2 == 1 }

  /** The low eight bits of a number. */
  function ToByte(n: nat): Byte {
    var n1 := n / 2; var n2 := n1 / 2; var n3 := n2 / 2; var n4 := n3 / 2;
    var n5 := n4 / 2; var n6 := n5 / 2; var n7 := n6 / 2;
    Join(Odd(n), Odd(n1), Odd(n2), Odd(n3), Odd(n4), Odd(n5), Odd(n6), Odd(n7))
  }

  lemma JoinBits(b0: bool, b1: bool, b2: bool, b3: bool, b4: bool, b5: bool, b6: bool, b7: bool)
    ensures Value(Join(b0, b1, b2, b3, b4, b5, b6, b7)) == Sum(b0, b1, b2, b3, b4, b5, b6, b7)
  {}

  lemma Halve(n: nat)
    ensures n == Weight(Odd(n), 1) + 2 * (n / 2)
  {}

  lemma Compose(n: nat, n1: nat, n2: nat, n3: nat, n4: nat, n5: nat, n6: nat, n7: nat, n8: nat,
    b0: bool, b1: bool, b2: bool, b3: bool, b4: bool, b5: bool, b6: bool, b7: bool)
    requires n == Weight(b0, 1) + 2 * n1 && n1 == Weight(b1, 1) + 2 * n2 && n2 == Weight(b2, 1) + 2 * n3
    requires n3 == Weight(b3, 1) + 2 * n4 && n4 == Weight(b4, 1) + 2 * n5 && n5 == Weight(b5, 1) + 2 * n6
    requires n6 == Weight(b6, 1) + 2 * n7 && n7 == Weight(b7, 1) + 2 * n8
    ensures n == Sum(b0, b1, b2, b3, b4, b5, b6, b7) + 256 * n8
  {}

  lemma Remainder(n: nat, r: nat, q: nat)
    requires n == r + 256 * q && r < 256
    ensures n % 256 == r
  {}

  /** The low eight bits of a number, and how many times 256 goes into it. */
  lemma Carry(n: nat) returns (q: nat)
    ensures n == 256 * q + BitSum(n)
  {
    hide Sum, Weight, Odd;
    var n1 := n / 2; var n2 := n1 / 2; var n3 := n2 / 2; var n4 := n3 / 2;
    var n5 := n4 / 2; var n6 := n5 / 2; var n7 := n6 / 2;
    Halve(n); Halve(n1); Halve(n2); Halve(n3); Halve(n4); Halve(n5); Halve(n6); Halve(n7);
    q := n7 / 2;
    Compose(n, n1, n2, n3, n4, n5, n6, n7, q,
      Odd(n), Odd(n1), Odd(n2), Odd(n3), Odd(n4), Odd(n5), Odd(n6), Odd(n7));
  }

  function BitSum(n: nat): (r: nat)
    ensures r < 256
  {
    var n1 := n / 2; var n2 := n1 / 2; var n3 := n2 / 2; var n4 := n3 / 2;
    var n5 := n4 / 2; var n6 := n5 / 2; var n7 := n6 / 2;
    Sum(Odd(n), Odd(n1), Odd(n2), Odd(n3), Odd(n4), Odd(n5), Odd(n6), Odd(n7))
  }

  lemma ByteBits(n: nat)
    ensures Value(ToByte(n)) == BitSum(n)
  {
    hide Value, Join, Sum, Odd;
    var n1 := n / 2; var n2 := n1 / 2; var n3 := n2 / 2; var n4 := n3 / 2;
    var n5 := n4 / 2; var n6 := n5 / 2; var n7 := n6 / 2;
    JoinBits(Odd(n), Odd(n1), Odd(n2), Odd(n3), Odd(n4), Odd(n5), Odd(n6), Odd(n7));
  }

  lemma ByteValue(n: nat)
    ensures Value(ToByte(n)) == n % 256
  {
    hide Value, ToByte, BitSum;
    ByteBits(n);
    var q := Carry(n);
    Remainder(n, BitSum(n), q);
  }

  lemma SumInjective(b0: bool, b1: bool, b2: bool, b3: bool, b4: bool, b5: bool, b6: bool, b7: bool,
    c0: bool, c1: bool, c2: bool, c3: bool, c4: bool, c5: bool, c6: bool, c7: bool)
    requires Sum(b0, b1, b2, b3, b4, b5, b6, b7) == Sum(c0, c1, c2, c3, c4, c5, c6, c7)
    ensures b0 == c0 && b1 == c1 && b2 == c2 && b3 == c3 && b4 == c4 && b5 == c5 && b6 == c6 && b7 == c7
  {}

  lemma ValueInjective(a: Byte, b: Byte)
    requires Value(a) == Value(b)
    ensures a == b
  {
    hide Sum;
    SumInjective(a & 1 != 0, a & 2 != 0, a & 4 != 0, a & 8 != 0, a & 16 != 0, a & 32 != 0, a & 64 != 0, a & 128 != 0,
      b & 1 != 0, b & 2 != 0, b & 4 != 0, b & 8 != 0, b & 16 != 0, b & 32 != 0, b & 64 != 0, b & 128 != 0);
  }

  lemma ZeroValue()
    ensures Value(0) == 0
  {}

  /** Two bytes as a number, low byte first or high byte first. */
  function Le16(f: Octets, i: nat): (n: nat)
    requires i + 1 < |f|
    ensures n < 0x10000
  {
    Value(f[i]) + 256 * Value(f[i + 1])
  }

  function PutLe16(n: nat): (s: Octets)
    ensures |s| == 2
  {
    [ToByte(n), ToByte(n / 256)]
  }

  function Be16(f: Octets, i: nat): (n: nat)
    requires i + 1 < |f|
    ensures n < 0x10000
  {
    256 * Value(f[i]) + Value(f[i + 1])
  }

  function PutBe16(n: nat): (s: Octets)
    ensures |s| == 2
  {
    [ToByte(n / 256), ToByte(n)]
  }

  lemma PutLe16Value(n: nat)
    requires n < 0x10000
    ensures Le16(PutLe16(n), 0) == n
  {
    hide Value, ToByte;
    ByteValue(n);
    ByteValue(n / 256);
  }

  lemma PutBe16Value(n: nat)
    requires n < 0x10000
    ensures Be16(PutBe16(n), 0) == n
  {
    hide Value, ToByte;
    ByteValue(n);
    ByteValue(n / 256);
  }

  /** The low 64 bits, high byte first. */
  function Be64(t: nat): (s: Octets)
    ensures |s| == 8
  {
    [ToByte(t / 0x100_0000_0000_0000), ToByte(t / 0x1_0000_0000_0000), ToByte(t / 0x100_0000_0000),
     ToByte(t / 0x1_0000_0000), ToByte(t / 0x100_0000), ToByte(t / 0x1_0000), ToByte(t / 0x100), ToByte(t)]
  }

  /** t >> 8k */
  function Shifted(t: nat, k: nat): nat { if k == 0 then t else Shifted(t, k - 1) / 256 }

  lemma Be64Byte(t: nat, k: nat)
    requires k < 8
    ensures Be64(t)[7 - k] == ToByte(Shifted(t, k))
  {
    hide ToByte;
    var a1 := t / 0x100; var a2 := a1 / 256; var a3 := a2 / 256; var a4 := a3 / 256;
    var a5 := a4 / 256; var a6 := a5 / 256; var a7 := a6 / 256;
    assert a2 == t / 0x1_0000 && a3 == t / 0x100_0000 && a4 == t / 0x1_0000_0000;
    assert a5 == t / 0x100_0000_0000 && a6 == t / 0x1_0000_0000_0000 && a7 == t / 0x100_0000_0000_0000;
    assert Shifted(t, 0) == t && Shifted(t, 1) == a1 && Shifted(t, 2) == a2 && Shifted(t, 3) == a3;
    assert Shifted(t, 4) == a4 && Shifted(t, 5) == a5 && Shifted(t, 6) == a6 && Shifted(t, 7) == a7;
  }
}
