/** HMAC-SHA1 (RFC 2104), PBKDF2 (RFC 8018 section 5.2) and the 802.11 PRF, as functions and
    as the driver computes them. */
module Hmac {
  import opened Bytes
  import opened Sha1

  const MAX_MESSAGE := 0x1000_0000_0000_0000

  type Tag = s: Octets | |s| == 20 witness seq(20, _ => 0)

  // ------------------------------------------------ HMAC

  /** The key, hashed if longer than a block, filled with zeros to a block. */
  function BlockKey(key: Octets): (k: Octets)
    ensures |k| == 64
  {
    var k := if |key| > 64 then Digest(key) else key;
    k + Zeros(64 - |k|)
  }

  function Filled(b: Byte): (s: Octets)
    ensures |s| == 64
  {
    seq(64, _ => b)
  }

  function HmacSha1(key: Octets, msg: Octets): Tag {
    var k := BlockKey(key);
    Digest(XorSeq(k, Filled(0x5c)) + Digest(XorSeq(k, Filled(0x36)) + msg))
  }

  /** RFC 2104, byte by byte: the key (hashed if longer than 64 bytes) and then zeros, exclusive or with
      0x36 inside and with 0x5c outside. */
  lemma HmacIs(key: Octets, msg: Octets, inner: Octets, outer: Octets)
    requires |inner| == |outer| == 64
    requires var k := if |key| <= 64 then key else Digest(key);
      forall i :: 0 <= i < 64 ==>
        inner[i] == (if i < |k| then k[i] else 0) ^ 0x36 && outer[i] == (if i < |k| then k[i] else 0) ^ 0x5c
    ensures HmacSha1(key, msg) == Digest(outer + Digest(inner + msg))
  {
    hide Digest;
    var k := if |key| <= 64 then key else Digest(key);
    assert forall i :: 0 <= i < 64 ==> BlockKey(key)[i] == if i < |k| then k[i] else 0;
    assert inner == XorSeq(BlockKey(key), Filled(0x36));
    assert outer == XorSeq(BlockKey(key), Filled(0x5c));
  }

  /** Hash a prefix and a message into the first 20 bytes of `out`. */
  method Hash2(prefix: Octets, msg: Octets, out: array<Byte>)
    requires |prefix| + |msg| < 2 * MAX_MESSAGE && out.Length >= 20
    modifies out
    ensures out[..20] == Digest(prefix + msg) && out[20..] == old(out[20..])
  {
    hide Digest;
    var c := new Sha1Ctx();
    c.Update(prefix);
    c.Update(msg);
    assert [] + prefix + msg == prefix + msg;
    c.Final(out);
  }

  /** `msg` and `out` may be the same buffer. */
  method HmacInto(key: Octets, msg: array<Byte>, msglen: nat, out: array<Byte>)
    requires |key| < MAX_MESSAGE && msglen <= msg.Length && msglen < MAX_MESSAGE && out.Length >= 20
    modifies out
    ensures out[..20] == HmacSha1(key, old(msg[..msglen])) && out[20..] == old(out[20..])
  {
    hide Digest, Xor, XorSeq;
    var k := new Byte[64];
    if |key| > 64 {
      Hash2(key, [], k);
      assert key + [] == key;
      forall i | 20 <= i < 64 { k[i] := 0; }
    } else {
      forall i | 0 <= i < 64 { k[i] := if i < |key| then key[i] else 0; }
    }
    assert k[..] == BlockKey(key);
    var ipad, opad := new Byte[64], new Byte[64];
    for i := 0 to 64
      invariant k[..] == BlockKey(key) && out[..] == old(out[..]) && msg[..] == old(msg[..])
      invariant forall j :: 0 <= j < i ==> ipad[j] == Xor(k[j], 0x36) && opad[j] == Xor(k[j], 0x5c)
    {
      ipad[i] := Xor(k[i], 0x36);
      opad[i] := Xor(k[i], 0x5c);
    }
    assert ipad[..] == XorSeq(k[..], Filled(0x36)) && opad[..] == XorSeq(k[..], Filled(0x5c));
    var inner := new Byte[20];
    Hash2(ipad[..], msg[..msglen], inner);
    assert inner[..] == inner[..20];
    assert opad[..] == XorSeq(BlockKey(key), Filled(0x5c)) && out[..] == old(out[..]);
    Hash2(opad[..], inner[..], out);
  }

  // ------------------------------------------------ PBKDF2

  /** The low 32 bits, high byte first. */
  function Be32(n: nat): (s: Octets)
    ensures |s| == 4
  {
    [ToByte(n / 0x100_0000), ToByte(n / 0x1_0000), ToByte(n / 0x100), ToByte(n)]
  }

  /** U_c of block i. */
  function U(pass: Octets, salt: Octets, i: nat, c: nat): Tag
    requires c >= 1
  {
    if c == 1 then HmacSha1(pass, salt + Be32(i)) else HmacSha1(pass, U(pass, salt, i, c - 1))
  }

  /** T_i: the exclusive or of U_1 to U_c. */
  function T(pass: Octets, salt: Octets, i: nat, c: nat): Tag
    requires c >= 1
  {
    if c == 1 then U(pass, salt, i, 1) else XorSeq(T(pass, salt, i, c - 1), U(pass, salt, i, c))
  }

  /** T_1 || .. || T_l */
  function Ts(pass: Octets, salt: Octets, c: nat, l: nat): (s: Octets)
    requires c >= 1
    ensures |s| == 20 * l
  {
    if l == 0 then [] else Ts(pass, salt, c, l - 1) + T(pass, salt, l, c)
  }

  function BlocksFor(len: nat): (l: nat)
    ensures len <= 20 * l < len + 20
  {
    (len + 19) / 20
  }

  /** DK: the first `len` bytes of as many blocks as it takes. */
  function Pbkdf2(pass: Octets, salt: Octets, c: nat, len: nat): (dk: Octets)
    requires c >= 1
    ensures |dk| == len
  {
    Ts(pass, salt, c, BlocksFor(len))[..len]
  }

  /** U_1, U_2, .. each the HMAC of the one before. */
  ghost predicate Chain(pass: Octets, first: Octets, us: seq<Tag>) {
    us != [] && us[0] == HmacSha1(pass, first) && forall k :: 0 < k < |us| ==> us[k] == HmacSha1(pass, us[k - 1])
  }

  /** Byte `j` of every one of them, combined. */
  ghost function XorAll(us: seq<Tag>, j: nat): Byte
    requires us != [] && j < 20
  {
    if |us| == 1 then us[0][j] else XorAll(us[..|us| - 1], j) ^ us[|us| - 1][j]
  }

  lemma {:induction false} ChainIs(pass: Octets, salt: Octets, i: nat, us: seq<Tag>)
    requires Chain(pass, salt + Be32(i), us)
    ensures us[|us| - 1] == U(pass, salt, i, |us|)
    ensures forall j :: 0 <= j < 20 ==> T(pass, salt, i, |us|)[j] == XorAll(us, j)
  {
    hide HmacSha1, Be32;
    if |us| > 1 {
      var vs := us[..|us| - 1];
      ChainIs(pass, salt, i, vs);
      assert us[|us| - 2] == vs[|vs| - 1];
    }
  }

  lemma TwoBlocks(pass: Octets, salt: Octets, c: nat)
    requires c >= 1
    ensures Pbkdf2(pass, salt, c, 32) == T(pass, salt, 1, c) + T(pass, salt, 2, c)[..12]
  {
    hide T;
    assert BlocksFor(32) == 2;
    assert Ts(pass, salt, c, 1) == T(pass, salt, 1, c);
    assert Ts(pass, salt, c, 2) == Ts(pass, salt, c, 1) + T(pass, salt, 2, c);
  }

  /** RFC 8018 section 5.2 for a key of 32 bytes: all of block 1 and twelve bytes of block 2, each the
      exclusive or of its chain, which begins with the salt and the block's number in four bytes. */
  lemma Pbkdf2Is(pass: Octets, salt: Octets, us: seq<Tag>, vs: seq<Tag>)
    requires |us| == |vs| > 0 && Chain(pass, salt + [0, 0, 0, 1], us) && Chain(pass, salt + [0, 0, 0, 2], vs)
    ensures forall j :: 0 <= j < 32 ==>
      Pbkdf2(pass, salt, |us|, 32)[j] == if j < 20 then XorAll(us, j) else XorAll(vs, j - 20)
  {
    hide Chain, XorAll, Be32, T, Pbkdf2;
    BlockNumbers();
    ChainIs(pass, salt, 1, us);
    ChainIs(pass, salt, 2, vs);
    TwoBlocks(pass, salt, |us|);
  }

  lemma BlockNumbers()
    ensures Be32(1) == [0, 0, 0, 1] && Be32(2) == [0, 0, 0, 2]
  {
    hide ToByte, Value;
    ByteValue(0); ByteValue(1); ByteValue(2);
    SmallestValues();
    ValueInjective(ToByte(0), 0); ValueInjective(ToByte(1), 1); ValueInjective(ToByte(2), 2);
  }

  lemma SmallestValues()
    ensures Value(0) == 0 && Value(1) == 1 && Value(2) == 2
  {}

  /** More blocks than needed do not change the key. */
  lemma {:induction false} TsPrefix(pass: Octets, salt: Octets, c: nat, l: nat, m: nat)
    requires c >= 1 && l <= m
    ensures Ts(pass, salt, c, m)[..20 * l] == Ts(pass, salt, c, l)
    decreases m
  {
    hide T;
    if l < m {
      TsPrefix(pass, salt, c, l, m - 1);
      assert Ts(pass, salt, c, m)[..20 * l] == Ts(pass, salt, c, m - 1)[..20 * l];
    }
  }

  function Capped(salt: Octets): Octets { if |salt| > 64 then salt[..64] else salt }

  function AtLeastOne(c: nat): nat { if c == 0 then 1 else c }

  /** One block: U_1 from the salt, then repeated HMAC in place, summed into T. */
  method Pbkdf2Block(pass: Octets, salt: Octets, i: nat, iterations: nat) returns (t: array<Byte>)
    requires |pass| < MAX_MESSAGE && |salt| <= 64
    ensures fresh(t) && t.Length == 20 && t[..] == T(pass, salt, i, AtLeastOne(iterations))
  {
    hide HmacSha1, Be32, XorSeq, Xor;
    var asalt, u := new Byte[68], new Byte[20];
    var q := Be32(i);
    forall k | 0 <= k < |salt| { asalt[k] := salt[k]; }
    forall k | 0 <= k < 4 { asalt[|salt| + k] := q[k]; }
    assert asalt[..|salt| + 4] == salt + Be32(i);
    HmacInto(pass, asalt, |salt| + 4, u);
    assert u[..] == u[..20];
    t := new Byte[20];
    forall k | 0 <= k < 20 { t[k] := u[k]; }
    assert t[..] == u[..];
    var c := 1;
    while c < iterations
      invariant 1 <= c <= AtLeastOne(iterations)
      invariant u[..] == U(pass, salt, i, c) && t[..] == T(pass, salt, i, c)
    {
      assert u[..20] == u[..];
      HmacInto(pass, u, 20, u);
      assert u[..] == u[..20] == U(pass, salt, i, c + 1);
      assert t[..] == T(pass, salt, i, c);
      XorInto(t, u);
      c := c + 1;
    }
  }

  method XorInto(t: array<Byte>, u: array<Byte>)
    requires t.Length == 20 && u.Length == 20 && t != u
    modifies t
    ensures t[..] == XorSeq(old(t[..]), u[..])
  {
    hide Xor;
    for j := 0 to 20
      invariant forall m :: 0 <= m < j ==> t[m] == Xor(old(t[m]), u[m])
      invariant forall m :: j <= m < 20 ==> t[m] == old(t[m])
    {
      t[j] := Xor(t[j], u[j]);
    }
  }

  /** Append the first n bytes of a digest to what has been written. */
  method CopyPart(out: array<Byte>, pos: nat, digest: array<Byte>, n: nat)
    requires n <= digest.Length && pos + n <= out.Length && out != digest
    modifies out
    ensures out[..pos + n] == old(out[..pos]) + digest[..n]
  {
    forall k | 0 <= k < n { out[pos + k] := digest[k]; }
  }

  lemma NextPart(done: Octets, next: Octets, n: nat)
    requires n <= |next|
    ensures done + next[..n] == (done + next)[..|done| + n]
  {}

  /** Fill `out` with the derived key. The salt is used up to its first 64 bytes, and an
      iteration count of 0 acts as 1. */
  method Pbkdf2Sha1(pass: Octets, salt: Octets, iterations: nat, out: array<Byte>)
    requires |pass| < MAX_MESSAGE
    modifies out
    ensures out[..] == Pbkdf2(pass, Capped(salt), AtLeastOne(iterations), out.Length)
  {
    hide T;
    var s, c := Capped(salt), AtLeastOne(iterations);
    var pos, block := 0, 1;
    while pos < out.Length
      invariant pos == if 20 * (block - 1) < out.Length then 20 * (block - 1) else out.Length
      invariant 1 <= block <= BlocksFor(out.Length) + 1
      invariant out[..pos] == Ts(pass, s, c, block - 1)[..pos]
      decreases out.Length - pos
    {
      var t := Pbkdf2Block(pass, s, block, iterations);
      var n := if out.Length - pos < 20 then out.Length - pos else 20;
      assert out[..pos] == Ts(pass, s, c, block - 1);
      CopyPart(out, pos, t, n);
      NextPart(Ts(pass, s, c, block - 1), T(pass, s, block, c), n);
      pos := pos + n;
      block := block + 1;
    }
    assert out[..] == out[..pos];
  }

  // ------------------------------------------------ PRF (section 12.7.1.2 of IEEE Std 802.11-2020)

  function PrfBlock(key: Octets, tag: Octets, seed: Octets, i: nat): Tag {
    HmacSha1(key, tag + [0] + seed + [ToByte(i)])
  }

  function PrfBlocks(key: Octets, tag: Octets, seed: Octets, l: nat): (s: Octets)
    ensures |s| == 20 * l
  {
    if l == 0 then [] else PrfBlocks(key, tag, seed, l - 1) + PrfBlock(key, tag, seed, l - 1)
  }

  function Prf(key: Octets, tag: Octets, seed: Octets, len: nat): (s: Octets)
    ensures |s| == len
  {
    PrfBlocks(key, tag, seed, BlocksFor(len))[..len]
  }

  /** One block of the pseudo-random function, its input assembled in a buffer. */
  method PrfOne(key: Octets, tag: Octets, seed: Octets, i: nat, inp: array<Byte>, digest: array<Byte>)
    requires |key| < MAX_MESSAGE && |tag| + |seed| + 2 <= inp.Length == 128 && digest.Length == 20
    modifies inp, digest
    ensures digest[..] == PrfBlock(key, tag, seed, i)
  {
    hide HmacSha1, ToByte;
    var text := tag + [0] + seed + [ToByte(i)];
    forall k | 0 <= k < |text| { inp[k] := text[k]; }
    assert inp[..|text|] == text;
    HmacInto(key, inp, |text|, digest);
    assert digest[..] == digest[..20];
  }

  /** The input buffer holds 128 bytes. */
  method PrfInto(key: Octets, tag: Octets, seed: Octets, out: array<Byte>)
    requires |key| < MAX_MESSAGE && |tag| + |seed| + 2 <= 128
    modifies out
    ensures out[..] == Prf(key, tag, seed, out.Length)
  {
    hide HmacSha1, ToByte;
    var pos, i := 0, 0;
    var inp, digest := new Byte[128], new Byte[20];
    while pos < out.Length
      invariant pos == if 20 * i < out.Length then 20 * i else out.Length
      invariant 0 <= i <= BlocksFor(out.Length)
      invariant out[..pos] == PrfBlocks(key, tag, seed, i)[..pos]
      decreases out.Length - pos
    {
      PrfOne(key, tag, seed, i, inp, digest);
      var n := if out.Length - pos < 20 then out.Length - pos else 20;
      assert out[..pos] == PrfBlocks(key, tag, seed, i);
      CopyPart(out, pos, digest, n);
      NextPart(PrfBlocks(key, tag, seed, i), PrfBlock(key, tag, seed, i), n);
      pos := pos + n;
      i := i + 1;
    }
    assert out[..] == out[..pos];
  }
}
