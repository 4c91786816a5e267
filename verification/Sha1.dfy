/** SHA-1 (FIPS 180-4) as functions, and the driver's streaming implementation. */
module Sha1 {
  import opened Bytes

  type Word = bv32
  type Chunk = s: Octets | |s| == 64 witness seq(64, _ => 0)
  datatype Hash = Hash(a: Word, b: Word, c: Word, d: Word, e: Word)

  // ------------------------------------------------ sections 4.1.1, 4.2.1, 5.3.1, 6.1.2

  function Rotl(x: Word, s: nat): Word
    requires 0 < s < 32
  {
    (x << s) | (x >> (32 - s))
  }

  function Plus(x: Word, y: Word): Word { x + y }
  function Xor4(x: Word, y: Word, z: Word, w: Word): Word { x ^ y ^ z ^ w }

  function Ch(x: Word, y: Word, z: Word): Word { (x & y) ^ (!x & z) }
  function Parity(x: Word, y: Word, z: Word): Word { x ^ y ^ z }
  function Maj(x: Word, y: Word, z: Word): Word { (x & y) ^ (x & z) ^ (y & z) }

  function F(t: nat, x: Word, y: Word, z: Word): Word {
    if t < 20 then Ch(x, y, z) else if 40 <= t < 60 then Maj(x, y, z) else Parity(x, y, z)
  }

  function K(t: nat): Word {
    if t < 20 then 0x5A827999 else if t < 40 then 0x6ED9EBA1 else if t < 60 then 0x8F1BBCDC else 0xCA62C1D6
  }

  function WordAt(p: Octets, i: nat): Word
    requires 4 * i + 4 <= |p|
  {
    (p[4 * i] as Word << 24) | (p[4 * i + 1] as Word << 16) | (p[4 * i + 2] as Word << 8) | p[4 * i + 3] as Word
  }

  /** The message schedule. */
  function W(m: Chunk, t: nat): Word {
    if t < 16 then WordAt(m, t) else Rotl(Xor4(W(m, t - 3), W(m, t - 8), W(m, t - 14), W(m, t - 16)), 1)
  }

  function Round(h: Hash, t: nat, w: Word): Hash {
    Hash(Plus(Plus(Plus(Plus(Rotl(h.a, 5), F(t, h.b, h.c, h.d)), h.e), K(t)), w), h.a, Rotl(h.b, 30), h.c, h.d)
  }

  function Rounds(h: Hash, m: Chunk, t: nat): Hash {
    if t == 0 then h else Round(Rounds(h, m, t - 1), t - 1, W(m, t - 1))
  }

  function Add(g: Hash, h: Hash): Hash { 
    Hash(Plus(g.a, h.a), Plus(g.b, h.b), Plus(g.c, h.c), Plus(g.d, h.d), Plus(g.e, h.e))
  }

  function Compress(h: Hash, m: Chunk): Hash { Add(h, Rounds(h, m, 80)) }

  function Init(): Hash { Hash(0x67452301, 0xEFCDAB89, 0x98BADCFE, 0x10325476, 0xC3D2E1F0) }

  /** The hash after all blocks of a whole number of blocks. */
  function Blocks(m: Octets): Hash
    requires |m| % 64 == 0
  {
    if m == [] then Init() else Compress(Blocks(m[..|m| - 64]), m[|m| - 64..])
  }

  /** Section 5.1.1: a one bit, zeros up to 448 modulo 512 bits, the bit length. */
  function Zeros(n: nat): (z: Octets)
    ensures |z| == n
  {
    seq(n, _ => 0)
  }

  function PadZeros(len: nat): nat { (55 - len) % 64 }

  function Pad(m: Octets): (p: Octets)
    ensures |p| % 64 == 0
  {
    PadLength(|m|);
    m + [0x80] + Zeros(PadZeros(|m|)) + Be64(8 * |m|)
  }

  lemma PadLength(n: nat)
    ensures (n + 1 + PadZeros(n) + 8) % 64 == 0
  {
    assert PadZeros(n) == 55 - n - 64 * ((55 - n) / 64);
  }

  function WordBytes(w: Word): (s: Octets)
    ensures |s| == 4
  {
    [((w >> 24) & 0xff) as Byte, ((w >> 16) & 0xff) as Byte, ((w >> 8) & 0xff) as Byte, (w & 0xff) as Byte]
  }

  function HashBytes(h: Hash): (s: Octets)
    ensures |s| == 20
  {
    WordBytes(h.a) + WordBytes(h.b) + WordBytes(h.c) + WordBytes(h.d) + WordBytes(h.e)
  }

  /** The SHA-1 digest of a message. */
  function Digest(m: Octets): (s: Octets)
    ensures |s| == 20
  {
    HashBytes(Blocks(Pad(m)))
  }

  // ------------------------------------------------ the block function as written

  lemma ChoiceForms(x: Word, y: Word, z: Word)
    ensures Ch(x, y, z) == (x & y) | (!x & z)
  {}

  lemma MajorityForms(x: Word, y: Word, z: Word)
    ensures Maj(x, y, z) == (x & y) | (x & z) | (y & z)
  {}

  function Choice(b: Word, c: Word, d: Word): Word { (b & c) | (!b & d) }
  function Majority(b: Word, c: Word, d: Word): Word { (b & c) | (b & d) | (c & d) }

  lemma ChoiceIs(x: Word, y: Word, z: Word)
    ensures Choice(x, y, z) == Ch(x, y, z)
  {
    hide Ch;
    ChoiceForms(x, y, z);
  }

  lemma MajorityIs(x: Word, y: Word, z: Word)
    ensures Majority(x, y, z) == Maj(x, y, z)
  {
    hide Maj;
    MajorityForms(x, y, z);
  }

  /** The round function as the code selects it. */
  method Select(i: nat, b: Word, c: Word, d: Word) returns (f: Word)
    ensures f == F(i, b, c, d)
  {
    hide Ch, Maj, Choice, Majority, Parity;
    ChoiceIs(b, c, d);
    MajorityIs(b, c, d);
    if i < 20 { f := Choice(b, c, d); }
    else if i < 40 { f := Parity(b, c, d); }
    else if i < 60 { f := Majority(b, c, d); }
    else { f := Parity(b, c, d); }
  }

  function Of(h: seq<Word>): Hash
    requires |h| == 5
  {
    Hash(h[0], h[1], h[2], h[3], h[4])
  }

  method Schedule(p: Chunk) returns (w: array<Word>)
    ensures fresh(w) && w.Length == 80 && forall t :: 0 <= t < 80 ==> w[t] == W(p, t)
  {
    hide Rotl, WordAt, Xor4;
    w := new Word[80];
    for i := 0 to 16
      invariant forall t :: 0 <= t < i ==> w[t] == W(p, t)
    {
      w[i] := WordAt(p, i);
    }
    for i := 16 to 80
      invariant forall t :: 0 <= t < i ==> w[t] == W(p, t)
    {
      w[i] := Rotl(Xor4(w[i - 3], w[i - 8], w[i - 14], w[i - 16]), 1);
    }
  }

  method BlockInto(h: array<Word>, p: Chunk)
    requires h.Length == 5
    modifies h
    ensures Of(h[..]) == Compress(Of(old(h[..])), p)
  {
    hide Rotl, W, K, F, Plus;
    var w := Schedule(p);
    var a, b, c, d, e := h[0], h[1], h[2], h[3], h[4];
    ghost var start := Of(h[..]);
    for i := 0 to 80
      invariant h[..] == old(h[..]) && forall t :: 0 <= t < 80 ==> w[t] == W(p, t)
      invariant Hash(a, b, c, d, e) == Rounds(start, p, i)
    {
      var f := Select(i, b, c, d);
      var t := Plus(Plus(Plus(Plus(Rotl(a, 5), f), e), K(i)), w[i]);
      assert Rounds(start, p, i + 1) == Round(Rounds(start, p, i), i, W(p, i));
      e, d, c, b, a := d, c, Rotl(b, 30), a, t;
    }
    assert Of(h[..]) == start;
    h[0], h[1], h[2], h[3], h[4] := Plus(h[0], a), Plus(h[1], b), Plus(h[2], c), Plus(h[3], d), Plus(h[4], e);
    assert Of(h[..]) == Add(start, Hash(a, b, c, d, e));
  }

  // ------------------------------------------------ streaming

  lemma NoBlocks()
    ensures Blocks([]) == Init()
  {}

  lemma AppendBlock(m: Octets, p: Chunk)
    requires |m| % 64 == 0
    ensures Blocks(m + p) == Compress(Blocks(m), p)
  {
    hide Compress;
    assert (m + p)[..|m|] == m && (m + p)[|m|..] == p;
  }

  lemma Regroup(m: Octets, n: nat, q: Octets)
    requires n <= |m|
    ensures m + q == m[..|m| - n] + (m[|m| - n..] + q)
    ensures (m + q)[..|m| - n] == m[..|m| - n] && (m + q)[|m| - n..] == m[|m| - n..] + q
    ensures (m + q)[..|m + q|] == m + q
  {}

  /** A 64-bit counter. */
  function Low64(x: nat): nat { x % 0x1_0000_0000_0000_0000 }

  lemma NoBits()
    ensures Low64(0) == 0
  {}

  lemma BitsAdd(a: nat, b: nat)
    ensures Low64(Low64(a) + b) == Low64(a + b)
  {
    var q := a / 0x1_0000_0000_0000_0000;
    assert a == a % 0x1_0000_0000_0000_0000 + 0x1_0000_0000_0000_0000 * q;
  }

  class Sha1Ctx {
    const h: array<Word>
    const buf: array<Byte>
    var bits: nat
    var n: nat
    /** Everything hashed so far. */
    ghost var msg: Octets

    /** The buffer holds the unfinished block and the hash covers the finished ones. */
    ghost predicate Body()
      reads this`n, this`msg, h, buf
    {
      && h.Length == 5 && buf.Length == 64 && n < 64 && n == |msg| % 64
      && buf[..n] == msg[|msg| - n..]
      && Of(h[..]) == Blocks(msg[..|msg| - n])
    }

    ghost predicate Valid()
      reads this, h, buf
    {
      Body() && bits == Low64(8 * |msg|)
    }

    constructor ()
      ensures Valid() && msg == [] && fresh(h) && fresh(buf)
    {
      hide Blocks, Init, Low64, Zeros;
      NoBlocks();
      NoBits();
      h := new Word[] [Init().a, Init().b, Init().c, Init().d, Init().e];
      buf := new Byte[64];
      bits, n, msg := 0, 0, [];
      new;
      assert h[..] == [Init().a, Init().b, Init().c, Init().d, Init().e];
      assert Of(h[..]) == Init() && msg[..0] == [];
    }

    method Fill(q: Octets)
      requires buf.Length == 64 && n + |q| <= 64
      modifies buf
      ensures buf[..n + |q|] == old(buf[..n]) + q
    {
      forall k | 0 <= k < |q| { buf[n + k] := q[k]; }
    }

    /** Copy `q`, which does not fill the buffer. */
    method Append(q: Octets)
      requires Body() && n + |q| < 64
      modifies this`n, this`msg, buf
      ensures Body() && msg == old(msg) + q
    {
      hide Blocks;
      Regroup(msg, n, q);
      RoomLeft(|msg|, |q|);
      Fill(q);
      n := n + |q|;
      msg := msg + q;
    }

    /** Copy `q`, which fills the buffer, and hash the block. */
    method Finish(q: Octets)
      requires Body() && n + |q| == 64
      modifies this`n, this`msg, h, buf
      ensures Body() && msg == old(msg) + q
    {
      hide Compress, Blocks;
      ghost var done, rest := msg[..|msg| - n], msg[|msg| - n..];
      Regroup(msg, n, q);
      Fill(q);
      assert buf[..] == buf[..n + |q|];
      AppendBlock(done, rest + q);
      BlockInto(h, buf[..]);
      n := 0;
      msg := msg + q;
    }

    /** Copy `q`, which at most fills the buffer. */
    method Absorb(q: Octets)
      requires Body() && n + |q| <= 64
      modifies this`n, this`msg, h, buf
      ensures Body() && msg == old(msg) + q
    {
      hide Body;
      if n + |q| == 64 { Finish(q); } else { Append(q); }
    }

    method Update(p: Octets)
      requires Valid()
      modifies this`bits, this`n, this`msg, h, buf
      ensures Valid() && msg == old(msg) + p
    {
      hide Body, Low64;
      BitsAdd(8 * |msg|, 8 * |p|);
      bits := Low64(bits + 8 * |p|);
      var i := 0;
      while i < |p|
        invariant 0 <= i <= |p| && Body() && msg == old(msg) + p[..i]
        invariant bits == Low64(8 * |old(msg)| + 8 * |p|)
      {
        BodyRoom();
        var take := 64 - n;
        if take > |p| - i { take := |p| - i; }
        Absorb(p[i..i + take]);
        Prefix(old(msg), p, i, take);
        i := i + take;
      }
      assert p[..i] == p;
    }

    lemma BodyRoom()
      requires Body()
      ensures h.Length == 5 && n < 64 && n == |msg| % 64
    {}

    lemma WholeBlocks()
      requires Body() && n == 0
      ensures |msg| % 64 == 0 && Of(h[..]) == Blocks(msg)
    {
      assert msg[..|msg|] == msg;
    }

    /** The padding loop: zero bytes until 56 bytes of the block are used. */
    method PadTo56()
      requires Valid()
      modifies this`bits, this`n, this`msg, h, buf
      ensures Valid() && n == 56 && msg == old(msg) + Zeros((56 - old(n)) % 64)
    {
      hide Body, Zeros;
      ghost var k := 0;
      BodyRoom();
      ZerosNext(0);
      assert msg + Zeros(0) == msg;
      while n != 56
        invariant Valid() && n < 64 && k + (56 - n) % 64 == (56 - old(n)) % 64
        invariant msg == old(msg) + Zeros(k)
        decreases (56 - n) % 64
      {
        BodyRoom();
        ghost var was := n;
        Update([0]);
        BodyRoom();
        NextOffset(|msg| - 1);
        ZerosNext(k);
        k := k + 1;
      }
    }

    /** The eight length bytes, high byte first. */
    method PutLength(b: nat)
      requires Valid()
      modifies this`bits, this`n, this`msg, h, buf
      ensures Valid() && msg == old(msg) + Be64(b)
    {
      hide Valid, Be64, Shifted, ToByte;
      var i := 8;
      while i > 0
        invariant 0 <= i <= 8 && Valid() && msg == old(msg) + Be64(b)[..8 - i]
      {
        i := i - 1;
        Be64Byte(b, i);
        Update([ToByte(Shifted(b, i))]);
        assert Be64(b)[..8 - i] == Be64(b)[..7 - i] + [Be64(b)[7 - i]];
      }
      assert Be64(b)[..8] == Be64(b);
    }

    method PutFour(out: array<Byte>, i: nat, q: Octets)
      requires i < 5 && |q| == 4 && out.Length >= 20
      modifies out
      ensures out[..4 * i + 4] == old(out[..4 * i]) + q && out[20..] == old(out[20..])
    {
      out[4 * i], out[4 * i + 1], out[4 * i + 2], out[4 * i + 3] := q[0], q[1], q[2], q[3];
    }

    method WriteDigest(out: array<Byte>)
      requires h.Length == 5 && out.Length >= 20
      modifies out
      ensures out[..20] == HashBytes(Of(h[..])) && out[20..] == old(out[20..])
    {
      hide WordBytes;
      for i := 0 to 5
        invariant h[..] == old(h[..])
        invariant out[..4 * i] == HashBytes(Of(h[..]))[..4 * i] && out[20..] == old(out[20..])
      {
        var q := WordBytes(h[i]);
        HashByteAt(h[..], i);
        PutFour(out, i, q);
      }
    }

    /** Pad, hash the last block and write the digest to the first 20 bytes of `out`. */
    method Final(out: array<Byte>)
      requires Valid() && |msg| < 0x2000_0000_0000_0000 && out.Length >= 20 && out != buf
      modifies this`bits, this`n, this`msg, h, buf, out
      ensures out[..20] == Digest(old(msg)) && out[20..] == old(out[20..])
    {
      hide Body, Zeros, Blocks, Be64, HashBytes;
      var b := bits;
      Update([0x80]);
      BodyRoom();
      PadTo56();
      PutLength(b);
      BodyRoom();
      PaddedLength(|old(msg)|);
      assert msg == Pad(old(msg));
      WholeBlocks();
      WriteDigest(out);
    }
  }

  lemma Prefix(m: Octets, p: Octets, i: nat, n: nat)
    requires i + n <= |p|
    ensures m + p[..i] + p[i..i + n] == m + p[..i + n]
  {
    assert p[..i] + p[i..i + n] == p[..i + n];
  }

  lemma RoomLeft(len: nat, n: nat)
    requires len % 64 + n < 64
    ensures (len + n) % 64 == len % 64 + n
  {}

  lemma ZerosNext(k: nat)
    ensures Zeros(k + 1) == Zeros(k) + [0] && Zeros(0) == []
  {}

  lemma NextOffset(len: nat)
    ensures (len + 1) % 64 == if len % 64 == 63 then 0 else len % 64 + 1
    ensures len % 64 != 56 ==> (56 - (len + 1) % 64) % 64 == (56 - len % 64) % 64 - 1
  {}

  lemma PaddedLength(len: nat)
    ensures PadZeros(len) == (56 - (len + 1) % 64) % 64
    ensures (len + 1 + PadZeros(len) + 8) % 64 == 0
  {
    PadLength(len);
  }

  lemma HashByteAt(h: seq<Word>, i: nat)
    requires |h| == 5 && i < 5
    ensures HashBytes(Of(h))[4 * i..4 * i + 4] == WordBytes(h[i]) && |WordBytes(h[i])| == 4
    ensures HashBytes(Of(h))[..4 * i + 4] == HashBytes(Of(h))[..4 * i] + WordBytes(h[i])
  {
    hide WordBytes;
  }

  function Concat(parts: seq<Octets>): Octets {
    if parts == [] then [] else Concat(parts[..|parts| - 1]) + parts[|parts| - 1]
  }

  /** However a message is cut into updates, the result is the digest of the whole message. */
  method HashParts(parts: seq<Octets>) returns (d: Octets)
    requires |Concat(parts)| < 0x2000_0000_0000_0000
    ensures d == Digest(Concat(parts))
  {
    hide Digest;
    var c := new Sha1Ctx();
    for i := 0 to |parts|
      invariant c.Valid() && fresh(c) && fresh(c.h) && fresh(c.buf) && c.msg == Concat(parts[..i])
    {
      c.Update(parts[i]);
      assert parts[..i + 1][..i] == parts[..i];
    }
    assert parts[..|parts|] == parts;
    var out := new Byte[20];
    c.Final(out);
    d := out[..];
    assert out[..20] == d;
  }
}
