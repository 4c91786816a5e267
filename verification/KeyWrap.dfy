/** AES key wrap and unwrap (RFC 3394 section 2.2), and the driver's unwrap loop. */
module KeyWrap {
  import opened Bytes
  import opened Options
  import opened Aes
  import opened AesArrays

  type Half = s: Octets | |s| == 8 witness [0, 0, 0, 0, 0, 0, 0, 0]

  /** The integrity register A and the registers R[1..n]. */
  datatype Regs = Regs(a: Half, r: seq<Half>)

  const DEFAULT_IV: Half := [0xa6, 0xa6, 0xa6, 0xa6, 0xa6, 0xa6, 0xa6, 0xa6]

  function Msb(b: Block): Half { b[..8] }
  function Lsb(b: Block): Half { b[8..] }

  function WrapStep(key: Block, s: Regs, t: nat, i: nat): (w: Regs)
    requires i < |s.r|
    ensures |w.r| == |s.r|
  {
    var b := Encrypt(key, s.a + s.r[i]);
    Regs(XorSeq(Msb(b), Be64(t)), s.r[i := Lsb(b)])
  }

  function UnwrapStep(key: Block, s: Regs, t: nat, i: nat): (w: Regs)
    requires i < |s.r|
    ensures |w.r| == |s.r|
  {
    var b := Decrypt(key, XorSeq(s.a, Be64(t)) + s.r[i]);
    Regs(Msb(b), s.r[i := Lsb(b)])
  }

  function Tick(n: nat, j: nat, i: nat): nat { n * j + i }

  /** The first `i` steps of round `j`; step i of round j has t = n * j + i. */
  function WrapRound(key: Block, s: Regs, j: nat, i: nat): (w: Regs)
    requires i <= |s.r|
    ensures |w.r| == |s.r|
  {
    if i == 0 then s else WrapStep(key, WrapRound(key, s, j, i - 1), Tick(|s.r|, j, i), i - 1)
  }

  function WrapRounds(key: Block, s: Regs, j: nat): (w: Regs)
    ensures |w.r| == |s.r|
  {
    if j == 0 then s else WrapRound(key, WrapRounds(key, s, j - 1), j - 1, |s.r|)
  }

  /** Undo steps i down to 1 of round `j`. */
  function UnwrapRound(key: Block, s: Regs, j: nat, i: nat): (w: Regs)
    requires i <= |s.r|
    ensures |w.r| == |s.r|
    decreases i
  {
    if i == 0 then s else UnwrapRound(key, UnwrapStep(key, s, Tick(|s.r|, j, i), i - 1), j, i - 1)
  }

  function UnwrapRounds(key: Block, s: Regs, j: nat): (w: Regs)
    ensures |w.r| == |s.r|
    decreases j
  {
    if j == 0 then s else UnwrapRounds(key, UnwrapRound(key, s, j - 1, |s.r|), j - 1)
  }

  function Halves(s: Octets): (r: seq<Half>)
    requires |s| % 8 == 0
    ensures |r| == |s| / 8
  {
    if s == [] then [] else [s[..8]] + Halves(s[8..])
  }

  function Flat(r: seq<Half>): (s: Octets)
    ensures |s| == 8 * |r|
  {
    if r == [] then [] else r[0] + Flat(r[1..])
  }

  function Wrap(key: Block, p: Octets): Octets
    requires |p| % 8 == 0
  {
    var w := WrapRounds(key, Regs(DEFAULT_IV, Halves(p)), 6);
    w.a + Flat(w.r)
  }

  function Unwrap(key: Block, c: Octets): Option<Octets> {
    if |c| % 8 != 0 || |c| < 16 then None
    else
      var w := UnwrapRounds(key, Regs(c[..8], Halves(c[8..])), 6);
      if w.a == DEFAULT_IV then Some(Flat(w.r)) else None
  }

  // ------------------------------------------------ unwrap is the inverse of wrap

  lemma {:induction false} FlatHalves(s: Octets)
    requires |s| % 8 == 0
    ensures Flat(Halves(s)) == s
  {
    if s != [] {
      FlatHalves(s[8..]);
      assert Halves(s)[1..] == Halves(s[8..]);
    }
  }

  lemma {:induction false} HalvesFlat(r: seq<Half>)
    ensures Halves(Flat(r)) == r
  {
    if r != [] {
      HalvesFlat(r[1..]);
      assert Flat(r)[..8] == r[0] && Flat(r)[8..] == Flat(r[1..]);
    }
  }

  lemma SplitBlock(a: Half, b: Half)
    ensures Msb(a + b) == a && Lsb(a + b) == b
  {}

  lemma StepUndone(key: Block, s: Regs, t: nat, i: nat)
    requires i < |s.r|
    ensures UnwrapStep(key, WrapStep(key, s, t, i), t, i) == s
    ensures WrapStep(key, UnwrapStep(key, s, t, i), t, i) == s
  {
    hide Encrypt, Decrypt, XorSeq, Be64;
    var b := Encrypt(key, s.a + s.r[i]);
    AesInverse(key, s.a + s.r[i]);
    SplitBlock(s.a, s.r[i]);
    XorSeqCancels(Msb(b), Be64(t));
    assert Msb(b) + Lsb(b) == b;
    var x := XorSeq(s.a, Be64(t));
    var d := Decrypt(key, x + s.r[i]);
    AesInverse(key, x + s.r[i]);
    SplitBlock(x, s.r[i]);
    XorSeqCancels(s.a, Be64(t));
    assert Msb(d) + Lsb(d) == d;
    assert s.r[i := Lsb(b)][i := s.r[i]] == s.r && s.r[i := Lsb(d)][i := s.r[i]] == s.r;
  }

  lemma {:induction false} RoundUndone(key: Block, s: Regs, j: nat, i: nat)
    requires i <= |s.r|
    ensures UnwrapRound(key, WrapRound(key, s, j, i), j, i) == s
    ensures WrapRound(key, UnwrapRound(key, s, j, i), j, i) == s
    decreases i
  {
    hide WrapStep, UnwrapStep;
    if i != 0 {
      var t := Tick(|s.r|, j, i);
      var w := WrapRound(key, s, j, i - 1);
      StepUndone(key, w, t, i - 1);
      RoundUndone(key, s, j, i - 1);
      StepUndone(key, s, t, i - 1);
      RoundUndone(key, UnwrapStep(key, s, t, i - 1), j, i - 1);
    }
  }

  lemma {:induction false} RoundsUndone(key: Block, s: Regs, j: nat)
    ensures UnwrapRounds(key, WrapRounds(key, s, j), j) == s
    ensures WrapRounds(key, UnwrapRounds(key, s, j), j) == s
    decreases j
  {
    hide WrapRound, UnwrapRound;
    if j != 0 {
      RoundUndone(key, WrapRounds(key, s, j - 1), j - 1, |s.r|);
      RoundsUndone(key, s, j - 1);
      RoundUndone(key, s, j - 1, |s.r|);
      RoundsUndone(key, UnwrapRound(key, s, j - 1, |s.r|), j - 1);
    }
  }

  /** Unwrapping a wrap returns the plaintext. */
  lemma UnwrapWrap(key: Block, p: Octets)
    requires |p| % 8 == 0 && p != []
    ensures Unwrap(key, Wrap(key, p)) == Some(p)
  {
    hide WrapRounds, UnwrapRounds, Halves, Flat;
    var s := Regs(DEFAULT_IV, Halves(p));
    var w := WrapRounds(key, s, 6);
    var c := Wrap(key, p);
    assert c[..8] == w.a && c[8..] == Flat(w.r);
    HalvesFlat(w.r);
    RoundsUndone(key, s, 6);
    FlatHalves(p);
  }

  /** Whatever is accepted is the wrap of what is returned. */
  lemma WrapUnwrap(key: Block, c: Octets)
    requires Unwrap(key, c).Some?
    ensures var p := Unwrap(key, c).value;
      |p| == |c| - 8 && |p| % 8 == 0 && Wrap(key, p) == c
  {
    hide WrapRounds, UnwrapRounds, Halves, Flat;
    var s := Regs(c[..8], Halves(c[8..]));
    var w := UnwrapRounds(key, s, 6);
    HalvesFlat(w.r);
    RoundsUndone(key, s, 6);
    FlatHalves(c[8..]);
    assert c == c[..8] + c[8..];
  }

  // ------------------------------------------------ the algorithm by its step numbers

  /** Step t of section 2.2.1, for counters of one byte: encrypt A and one register, exclusive-or the
      last byte of the new A with t. */
  ghost predicate Stepped(key: Block, s: Regs, w: Regs, t: nat, i: nat) {
    && i < |s.r|
    && var b := Encrypt(key, s.a + s.r[i]);
      w.a == b[..7] + [b[7] ^ ToByte(t)] && w.r == s.r[i := b[8..]]
  }

  /** One register after the other, and again from the first. */
  function Turn(k: nat, n: nat): nat
    requires n > 0
  {
    if k < n then k else Turn(k - n, n)
  }

  /** Six times through all registers, the steps numbered from 1. */
  ghost predicate Trace(key: Block, ss: seq<Regs>, n: nat) {
    && n > 0 && |ss| == 6 * n + 1 && (forall t: nat :: t < |ss| ==> |ss[t].r| == n)
    && forall t: nat :: 0 < t < |ss| ==> Stepped(key, ss[t - 1], ss[t], t, Turn(t - 1, n))
  }

  lemma SmallCounter(t: nat)
    requires t < 256
    ensures Be64(t) == [0, 0, 0, 0, 0, 0, 0, ToByte(t)]
  {
    hide ToByte, Value;
    ByteValue(0);
    ZeroValue();
    ValueInjective(ToByte(0), 0);
  }

  lemma SteppedIs(key: Block, s: Regs, w: Regs, t: nat, i: nat)
    requires Stepped(key, s, w, t, i) && t < 256
    ensures w == WrapStep(key, s, t, i)
  {
    hide Encrypt, ToByte, Be64, Xor;
    SmallCounter(t);
    var b := Encrypt(key, s.a + s.r[i]);
    NothingXored(b, ToByte(t));
  }

  lemma NothingXored(b: Block, t: Byte)
    ensures XorSeq(b[..8], [0, 0, 0, 0, 0, 0, 0, t]) == b[..7] + [b[7] ^ t]
  {}

  lemma NextTurn(k: nat, n: nat)
    requires n > 0
    ensures Turn(k + n, n) == Turn(k, n)
  {}

  lemma StepBound(n: nat, j: nat, i: nat)
    requires i <= n && j < 6
    ensures n * j + i <= n * (j + 1) <= 6 * n
  {
    assert n * (j + 1) == n * j + n;
    assert n * (6 - (j + 1)) >= 0;
  }

  lemma {:induction false} StepIndex(n: nat, j: nat, i: nat)
    requires 0 < i <= n
    ensures Turn(n * j + i - 1, n) == i - 1
  {
    if j > 0 {
      StepIndex(n, j - 1, i);
      assert n * j == n * (j - 1) + n;
      NextTurn(n * (j - 1) + i - 1, n);
    }
  }

  lemma {:induction false} TraceRound(key: Block, ss: seq<Regs>, n: nat, j: nat, i: nat)
    requires Trace(key, ss, n) && 6 * n < 256 && j < 6 && i <= n
    ensures n * j + i < |ss| && WrapRound(key, ss[n * j], j, i) == ss[n * j + i]
  {
    hide WrapStep, Stepped;
    if i != 0 {
      TraceRound(key, ss, n, j, i - 1);
      StepIndex(n, j, i);
      StepBound(n, j, i);
      SteppedIs(key, ss[n * j + i - 1], ss[n * j + i], n * j + i, i - 1);
    } else {
      StepBound(n, j, 0);
    }
  }

  lemma {:induction false} TraceRounds(key: Block, ss: seq<Regs>, n: nat, j: nat)
    requires Trace(key, ss, n) && 6 * n < 256 && j <= 6
    ensures n * j < |ss| && WrapRounds(key, ss[0], j) == ss[n * j]
  {
    hide WrapRound, Stepped;
    if j != 0 {
      TraceRounds(key, ss, n, j - 1);
      TraceRound(key, ss, n, j - 1, n);
      StepBound(n, j - 1, n);
      assert n * (j - 1) + n == n * j;
    }
  }

  /** The wrap of up to 42 blocks is what the numbered steps leave in A and the registers, beginning with
      eight bytes A6. */
  lemma WrapIsTrace(key: Block, p: Octets, ss: seq<Regs>)
    requires |p| % 8 == 0 && |p| <= 336 && Trace(key, ss, |p| / 8)
    requires ss[0] == Regs([0xa6, 0xa6, 0xa6, 0xa6, 0xa6, 0xa6, 0xa6, 0xa6], Halves(p))
    ensures Wrap(key, p) == ss[|ss| - 1].a + Flat(ss[|ss| - 1].r)
  {
    hide WrapRounds, Stepped, Halves, Flat;
    TraceRounds(key, ss, |p| / 8, 6);
  }

  // ------------------------------------------------ the unwrap loop

  lemma {:induction false} HalfAt(s: Octets, i: nat)
    requires |s| % 8 == 0 && 8 * i < |s|
    ensures Halves(s)[i] == s[8 * i..8 * i + 8]
    decreases i
  {
    if i != 0 {
      HalfAt(s[8..], i - 1);
      assert s[8..][8 * (i - 1)..8 * (i - 1) + 8] == s[8 * i..8 * i + 8];
    }
  }

  /** Overwriting eight aligned bytes replaces one register. */
  lemma HalvesUpdate(s: Octets, t: Octets, i: nat, h: Half)
    requires |s| == |t| && |s| % 8 == 0 && 8 * i < |s|
    requires t == s[..8 * i] + h + s[8 * i + 8..]
    ensures Halves(t) == Halves(s)[i := h]
  {
    hide Halves;
    forall k | 0 <= k < |s| / 8 ensures Halves(t)[k] == Halves(s)[i := h][k] {
      HalfAt(t, k);
      HalfAt(s, k);
      if k == i { assert t[8 * k..8 * k + 8] == h; } else { assert t[8 * k..8 * k + 8] == s[8 * k..8 * k + 8]; }
    }
  }

  /** XOR a counter into the first eight bytes, low byte last. */
  method XorCounter(b: array<Byte>, t: nat)
    requires b.Length == 16
    modifies b
    ensures b[..8] == XorSeq(old(b[..8]), Be64(t)) && b[8..] == old(b[8..])
  {
    hide Xor, ToByte;
    var v := t;
    ghost var e := Be64(t);
    var k := 0;
    while k < 8
      invariant 0 <= k <= 8 && v == Shifted(t, k)
      invariant forall m :: 8 - k <= m < 8 ==> b[m] == Xor(old(b[m]), e[m])
      invariant forall m :: 0 <= m < 8 - k || 8 <= m < 16 ==> b[m] == old(b[m])
    {
      Be64Byte(t, k);
      b[7 - k] := Xor(b[7 - k], ToByte(v));
      v := v / 256;
      k := k + 1;
    }
  }

  /** One unwrap step on the buffers. */
  method StepArrays(tables: Tables, kek: Block, a: array<Byte>, r: array<Byte>, n: nat, t: nat, i: nat)
    requires tables.Valid() && a.Length == 8 && r.Length == 256 && n <= 32 && i < n && a != r
    requires tables.rsbox != a && tables.rsbox != r
    modifies tables, tables.rsbox, a, r
    ensures tables.Valid()
    ensures Regs(a[..], Halves(r[..8 * n])) == UnwrapStep(kek, Regs(old(a[..]), Halves(old(r[..8 * n]))), t, i)
  {
    hide Decrypt, Be64, XorSeq, Halves;
    ghost var s, v := r[..8 * n], a[..];
    HalfAt(s, i);
    var b := new Byte[16];
    forall k | 0 <= k < 8 { b[k] := a[k]; }
    assert b[..8] == v;
    XorCounter(b, t);
    ghost var x := b[..8];
    forall k | 0 <= k < 8 { b[8 + k] := r[8 * i + k]; }
    assert b[..] == x + Halves(s)[i];
    tables.DecryptBlock(kek, b, b);
    ghost var d := b[..];
    assert a[..] == v && r[..8 * n] == s;
    forall k | 0 <= k < 8 { a[k] := b[k]; }
    assert a[..] == Msb(d);
    assert r[..8 * n] == s && b[..] == d;
    forall k | 0 <= k < 8 { r[8 * i + k] := b[8 + k]; }
    assert r[..8 * n] == s[..8 * i] + Lsb(d) + s[8 * i + 8..];
    HalvesUpdate(s, r[..8 * n], i, Lsb(d));
    assert a[..] == Msb(d);
  }

  /** The two nested loops, from the last step to the first. */
  method UnwindArrays(tables: Tables, kek: Block, a: array<Byte>, r: array<Byte>, n: nat)
    requires tables.Valid() && a.Length == 8 && r.Length == 256 && n <= 32 && a != r
    requires tables.rsbox != a && tables.rsbox != r
    modifies tables, tables.rsbox, a, r
    ensures tables.Valid()
    ensures Regs(a[..], Halves(r[..8 * n])) == UnwrapRounds(kek, Regs(old(a[..]), Halves(old(r[..8 * n]))), 6)
  {
    hide Halves, UnwrapStep, Tick;
    ghost var s := Regs(a[..], Halves(r[..8 * n]));
    var j := 6;
    while j > 0
      invariant 0 <= j <= 6 && tables.Valid()
      invariant UnwrapRounds(kek, Regs(a[..], Halves(r[..8 * n])), j) == UnwrapRounds(kek, s, 6)
    {
      j := j - 1;
      var i := n;
      ghost var before := Regs(a[..], Halves(r[..8 * n]));
      while i > 0
        invariant 0 <= i <= n && tables.Valid()
        invariant UnwrapRound(kek, Regs(a[..], Halves(r[..8 * n])), j, i) == UnwrapRound(kek, before, j, n)
      {
        StepArrays(tables, kek, a, r, n, Tick(n, j, i), i - 1);
        i := i - 1;
      }
    }
  }

  method HasDefaultIv(a: array<Byte>) returns (ok: bool)
    requires a.Length == 8
    ensures ok <==> a[..] == DEFAULT_IV
  {
    for k := 0 to 8
      invariant forall m :: 0 <= m < k ==> a[m] == 0xa6
    {
      if a[k] != 0xa6 { assert a[..][k] != DEFAULT_IV[k]; return false; }
    }
    return true;
  }

  /** RFC 3394 unwrap: 0 on failure, else the plaintext length, with the plaintext in `out`.
      The register buffer holds 32 blocks, which bounds the ciphertext. */
  method AesUnwrap(tables: Tables, kek: Block, cipher: Octets, out: array<Byte>) returns (len: nat)
    requires tables.Valid() && |cipher| <= 264 && |cipher| <= out.Length + 8 && out != tables.rsbox
    modifies tables, tables.rsbox, out
    ensures tables.Valid()
    ensures match Unwrap(kek, cipher)
      case None => len == 0 && out[..] == old(out[..])
      case Some(p) => len == |p| && out[..] == p + old(out[len..])
  {
    hide Halves, Flat, UnwrapRounds;
    if |cipher| < 16 || |cipher| % 8 != 0 { return 0; }
    var n := |cipher| / 8 - 1;
    var a, r := new Byte[8], new Byte[256];
    forall k | 0 <= k < 8 { a[k] := cipher[k]; }
    forall k | 0 <= k < 8 * n { r[k] := cipher[8 + k]; }
    assert a[..] == cipher[..8] && r[..8 * n] == cipher[8..];
    UnwindArrays(tables, kek, a, r, n);
    assert out[..] == old(out[..]);
    var ok := HasDefaultIv(a);
    if !ok { return 0; }
    ghost var p := r[..8 * n];
    FlatHalves(p);
    forall k | 0 <= k < 8 * n { out[k] := r[k]; }
    len := 8 * n;
    assert out[..] == p + old(out[len..]);
  }
}
