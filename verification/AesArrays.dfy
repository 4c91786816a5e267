/** The AES code as written: byte loops over arrays, proved to compute the functions of Aes. */
module AesArrays {
  import opened Bytes
  import opened SBoxes
  import opened Gf256
  import opened Aes

  ghost predicate IsInverseTable(rsbox: seq<Byte>) {
    |rsbox| == 256 && forall y: Byte :: rsbox[Value(y)] == InvSBox(y)
  }

  lemma SBoxInjective(x: Byte, y: Byte)
    ensures Value(SBox(x)) == Value(SBox(y)) ==> x == y
  {
    hide SBox, InvSBox, Value;
    InvSBoxUndoesSBox(x);
    InvSBoxUndoesSBox(y);
    if Value(SBox(x)) == Value(SBox(y)) { ValueInjective(SBox(x), SBox(y)); }
  }

  /** Invert the S-box table. */
  method BuildRsbox(rsbox: array<Byte>)
    requires rsbox.Length == 256
    modifies rsbox
    ensures IsInverseTable(rsbox[..])
  {
    hide SBox, InvSBox, Value, ToByte;
    for i := 0 to 256
      invariant forall x: Byte :: Value(x) < i ==> rsbox[Value(SBox(x))] == x
    {
      var y := ToByte(i);
      ByteValue(i);
      forall x: Byte | Value(x) <= i ensures Value(SBox(x)) == Value(SBox(y)) ==> x == y { SBoxInjective(x, y); }
      forall x: Byte | Value(x) == i ensures x == y { ValueInjective(x, y); }
      rsbox[Value(SBox(y))] := y;
    }
    forall y: Byte ensures rsbox[Value(y)] == InvSBox(y) { SBoxUndoesInvSBox(y); }
  }

  function SetWord(s: Octets, i: nat, w: Column): (t: Octets)
    requires 4 * i + 4 <= |s|
    ensures |t| == |s|
  {
    s[4 * i := w.a][4 * i + 1 := w.b][4 * i + 2 := w.c][4 * i + 3 := w.d]
  }

  lemma WordAt(s: Octets, i: nat, w: Column, j: nat)
    requires 4 * i + 4 <= |s| && 4 * j + 4 <= |s|
    ensures Col(SetWord(s, i, w), 4 * j) == if j == i then w else Col(s, 4 * j)
  {}

  lemma NextKeyWord(key: Block, i: nat)
    requires 4 <= i
    ensures var t, p := KeyWord(key, i - 1), KeyWord(key, i - 4);
      var u := if i % 4 == 0 then Column(Xor(SBox(t.b), Rcon(i / 4)), SBox(t.c), SBox(t.d), SBox(t.a)) else t;
      KeyWord(key, i) == Column(Xor(p.a, u.a), Xor(p.b, u.b), Xor(p.c, u.c), Xor(p.d, u.d))
  {
    hide SBox, Xor;
    var t := KeyWord(key, i - 1);
    XorZeros(SBox(t.c), SBox(t.d), SBox(t.a));
  }

  lemma XorZeros(a: Byte, b: Byte, c: Byte)
    ensures Xor(a, 0) == a && Xor(b, 0) == b && Xor(c, 0) == c
  {}

  /** Key expansion into 176 bytes. */
  method Expand(key: Block, rk: array<Byte>)
    requires rk.Length == 176
    modifies rk
    ensures forall i :: 0 <= i < 44 ==> Col(rk[..], 4 * i) == KeyWord(key, i)
  {
    hide SBox, Xor, KeyWord, Rcon, SetWord;
    forall k | 0 <= k < 16 { rk[k] := key[k]; }   // memcpy
    forall j | 0 <= j < 4 ensures Col(rk[..], 4 * j) == KeyWord(key, j) { FirstWords(key, rk[..], j); }
    for i := 4 to 44
      invariant forall j :: 0 <= j < i ==> Col(rk[..], 4 * j) == KeyWord(key, j)
    {
      var t0, t1, t2, t3 := rk[4 * i - 4], rk[4 * i - 3], rk[4 * i - 2], rk[4 * i - 1];
      assert Column(t0, t1, t2, t3) == Col(rk[..], 4 * (i - 1));
      if i % 4 == 0 {
        t0, t1, t2, t3 := Xor(SBox(t1), Rcon(i / 4)), SBox(t2), SBox(t3), SBox(t0);
      }
      assert Col(rk[..], 4 * (i - 4)) == KeyWord(key, i - 4);
      NextKeyWord(key, i);
      PutWord(rk, i, Xor(rk[4 * i - 16], t0), Xor(rk[4 * i - 15], t1), Xor(rk[4 * i - 14], t2), Xor(rk[4 * i - 13], t3));
    }
  }

  lemma FirstWords(key: Block, s: Octets, j: nat)
    requires j < 4 && 16 <= |s| && forall k :: 0 <= k < 16 ==> s[k] == key[k]
    ensures Col(s, 4 * j) == KeyWord(key, j)
  {}

  method PutWord(rk: array<Byte>, i: nat, a: Byte, b: Byte, c: Byte, d: Byte)
    requires 4 * i + 4 <= rk.Length
    modifies rk
    ensures Col(rk[..], 4 * i) == Column(a, b, c, d)
    ensures forall j {:trigger Col(rk[..], 4 * j)} :: 0 <= j && 4 * j + 4 <= rk.Length && j != i ==>
      Col(rk[..], 4 * j) == Col(old(rk[..]), 4 * j)
  {
    ghost var s := rk[..];
    rk[4 * i], rk[4 * i + 1], rk[4 * i + 2], rk[4 * i + 3] := a, b, c, d;
    assert rk[..] == SetWord(s, i, Column(a, b, c, d));
    forall j | 0 <= j && 4 * j + 4 <= rk.Length
      ensures Col(rk[..], 4 * j) == if j == i then Column(a, b, c, d) else Col(s, 4 * j)
    {
      WordAt(s, i, Column(a, b, c, d), j);
    }
  }

  // ------------------------------------------------ the steps of a round, in place

  method AddRk(s: array<Byte>, rk: array<Byte>, off: nat)
    requires s.Length == 16 && off + 16 <= rk.Length && s != rk
    modifies s
    ensures Load(s[..], 0) == AddRoundKey(Load(old(s[..]), 0), Load(rk[..], off))
  {
    hide Xor;
    for i := 0 to 16
      invariant forall k :: 0 <= k < i ==> s[k] == Xor(old(s[k]), rk[off + k])
      invariant forall k :: i <= k < 16 ==> s[k] == old(s[k])
    {
      s[i] := Xor(s[i], rk[off + i]);
    }
  }

  method SubArray(s: array<Byte>)
    requires s.Length == 16
    modifies s
    ensures Load(s[..], 0) == SubBytes(Load(old(s[..]), 0))
  {
    hide SBox;
    for i := 0 to 16
      invariant forall k :: 0 <= k < i ==> s[k] == SBox(old(s[k]))
      invariant forall k :: i <= k < 16 ==> s[k] == old(s[k])
    {
      s[i] := SBox(s[i]);
    }
  }

  method InvSubArray(t: array<Byte>, rsbox: array<Byte>)
    requires t.Length == 16 && IsInverseTable(rsbox[..]) && t != rsbox
    modifies t
    ensures Load(t[..], 0) == InvSubBytes(Load(old(t[..]), 0))
  {
    hide InvSBox, Value;
    for i := 0 to 16
      invariant forall k :: 0 <= k < i ==> t[k] == InvSBox(old(t[k]))
      invariant forall k :: i <= k < 16 ==> t[k] == old(t[k])
    {
      assert rsbox[..][Value(t[i])] == InvSBox(t[i]);
      t[i] := rsbox[Value(t[i])];
    }
  }

  method ShiftArray(s: array<Byte>, t: array<Byte>)
    requires s.Length == 16 && t.Length == 16 && s != t
    modifies t
    ensures Load(t[..], 0) == ShiftRows(Load(s[..], 0))
  {
    PutRow(t, 0, s[0], s[4], s[8], s[12]);
    PutRow(t, 1, s[5], s[9], s[13], s[1]);
    PutRow(t, 2, s[10], s[14], s[2], s[6]);
    PutRow(t, 3, s[15], s[3], s[7], s[11]);
  }

  method PutRow(t: array<Byte>, r: nat, a: Byte, b: Byte, c: Byte, d: Byte)
    requires t.Length == 16 && r < 4
    modifies t
    ensures t[r] == a && t[r + 4] == b && t[r + 8] == c && t[r + 12] == d
    ensures forall k :: 0 <= k < 16 && k % 4 != r ==> t[k] == old(t[k])
  {
    t[r], t[r + 4], t[r + 8], t[r + 12] := a, b, c, d;
  }

  method InvShiftArray(s: array<Byte>, t: array<Byte>)
    requires s.Length == 16 && t.Length == 16 && s != t
    modifies t
    ensures Load(t[..], 0) == InvShiftRows(Load(s[..], 0))
  {
    PutRow(t, 0, s[0], s[4], s[8], s[12]);
    PutRow(t, 1, s[13], s[1], s[5], s[9]);
    PutRow(t, 2, s[10], s[14], s[2], s[6]);
    PutRow(t, 3, s[7], s[11], s[15], s[3]);
  }

  ghost predicate Columnwise(f: Column -> Column, t: Octets, s: Octets, n: nat)
    requires |t| == |s| == 16 && n <= 4
  {
    forall j {:trigger Col(s, 4 * j)} :: 0 <= j < n ==> Col(s, 4 * j) == f(Col(t, 4 * j))
  }

  lemma FourColumns(s: Octets)
    requires |s| == 16
    ensures Load(s, 0) == State(Col(s, 4 * 0), Col(s, 4 * 1), Col(s, 4 * 2), Col(s, 4 * 3))
  {}

  method MixArray(t: array<Byte>, s: array<Byte>)
    requires s.Length == 16 && t.Length == 16 && s != t
    modifies s
    ensures Load(s[..], 0) == MixColumns(Load(t[..], 0))
  {
    hide Gmul, Xor;
    for i := 0 to 4
      invariant Columnwise(MixColumn, t[..], s[..], i)
    {
      var a0, a1, a2, a3 := t[4 * i], t[4 * i + 1], t[4 * i + 2], t[4 * i + 3];
      assert Col(t[..], 4 * i) == Column(a0, a1, a2, a3);
      var p0 := Mul(a0, 2); var p1 := Mul(a1, 3);
      var q1 := Mul(a1, 2); var q2 := Mul(a2, 3);
      var r2 := Mul(a2, 2); var r3 := Mul(a3, 3);
      var u0 := Mul(a0, 3); var u3 := Mul(a3, 2);
      PutWord(s, i, Xor(Xor(Xor(p0, p1), a2), a3), Xor(Xor(Xor(a0, q1), q2), a3),
        Xor(Xor(Xor(a0, a1), r2), r3), Xor(Xor(Xor(u0, a1), a2), u3));
    }
    FourColumns(s[..]);
    FourColumns(t[..]);
  }

  method InvMixArray(t: array<Byte>, s: array<Byte>)
    requires s.Length == 16 && t.Length == 16 && s != t
    modifies s
    ensures Load(s[..], 0) == InvMixColumns(Load(t[..], 0))
  {
    hide Gmul, Xor;
    for i := 0 to 4
      invariant Columnwise(InvMixColumn, t[..], s[..], i)
    {
      var a0, a1, a2, a3 := t[4 * i], t[4 * i + 1], t[4 * i + 2], t[4 * i + 3];
      assert Col(t[..], 4 * i) == Column(a0, a1, a2, a3);
      var b0 := InvMixByte(a0, a1, a2, a3, 14, 11, 13, 9);
      var b1 := InvMixByte(a0, a1, a2, a3, 9, 14, 11, 13);
      var b2 := InvMixByte(a0, a1, a2, a3, 13, 9, 14, 11);
      var b3 := InvMixByte(a0, a1, a2, a3, 11, 13, 9, 14);
      PutWord(s, i, b0, b1, b2, b3);
    }
    FourColumns(s[..]);
    FourColumns(t[..]);
  }

  method InvMixByte(a0: Byte, a1: Byte, a2: Byte, a3: Byte, k0: Factor, k1: Factor, k2: Factor, k3: Factor)
    returns (b: Byte)
    ensures b == Xor4(Gmul(a0, k0), Gmul(a1, k1), Gmul(a2, k2), Gmul(a3, k3))
  {
    hide Gmul, Xor;
    var p0 := Mul(a0, k0); var p1 := Mul(a1, k1); var p2 := Mul(a2, k2); var p3 := Mul(a3, k3);
    b := Xor(Xor(Xor(p0, p1), p2), p3);
  }

  // ------------------------------------------------ the block functions

  lemma RoundKeyAt(key: Block, rk: Octets, r: nat)
    requires |rk| == 176 && r <= 10
    requires forall i :: 0 <= i < 44 ==> Col(rk, 4 * i) == KeyWord(key, i)
    ensures Load(rk, 16 * r) == RoundKey(key, r)
  {
    hide KeyWord;
    assert Col(rk, 4 * (4 * r)) == KeyWord(key, 4 * r);
    assert Col(rk, 4 * (4 * r + 1)) == KeyWord(key, 4 * r + 1);
    assert Col(rk, 4 * (4 * r + 2)) == KeyWord(key, 4 * r + 2);
    assert Col(rk, 4 * (4 * r + 3)) == KeyWord(key, 4 * r + 3);
  }

  ghost predicate Schedule(key: Block, rk: Octets) {
    |rk| == 176 && forall r :: 0 <= r <= 10 ==> Load(rk, 16 * r) == RoundKey(key, r)
  }

  method Keys(key: Block) returns (rk: array<Byte>)
    ensures fresh(rk) && rk.Length == 176 && Schedule(key, rk[..])
  {
    hide KeyWord, RoundKey, Col;
    rk := new Byte[176];
    Expand(key, rk);
    forall r | 0 <= r <= 10 ensures Load(rk[..], 16 * r) == RoundKey(key, r) { RoundKeyAt(key, rk[..], r); }
  }

  /** Encrypt one block; `inp` and `out` may be the same buffer. */
  method EcbEncrypt(key: Block, inp: array<Byte>, out: array<Byte>)
    requires inp.Length == 16 && out.Length == 16
    modifies out
    ensures out[..] == Encrypt(key, old(inp[..]))
  {
    hide Load, RoundKey, AddRoundKey, SubBytes, ShiftRows, MixColumns;
    var rk := Keys(key);
    ghost var ks := rk[..];
    var s, t := new Byte[16], new Byte[16];
    forall i | 0 <= i < 16 { s[i] := inp[i]; }
    assert s[..] == inp[..] == old(inp[..]);
    ghost var start := Load(inp[..], 0);
    AddRk(s, rk, 16 * 0);
    assert rk[..] == ks && Load(ks, 16 * 0) == RoundKey(key, 0);
    for r := 1 to 11
      invariant rk[..] == ks && Load(s[..], 0) == Encrypting(key, start, r - 1)
    {
      SubArray(s);
      ghost var b := s[..];
      ShiftArray(s, t);
      assert s[..] == b;
      ghost var u := t[..];
      if r != 10 {
        MixArray(t, s);
        assert t[..] == u;
      } else {
        forall i | 0 <= i < 16 { s[i] := t[i]; }
        assert s[..] == u;
      }
      assert rk[..] == ks;
      AddRk(s, rk, 16 * r);
      assert rk[..] == ks && Load(ks, 16 * r) == RoundKey(key, r);
    }
    StoreLoad(s[..]);
    ghost var e := s[..];
    forall i | 0 <= i < 16 { out[i] := s[i]; }
    assert out[..] == e;
  }

  /** Decrypt one block with the inverse table; `inp` and `out` may be the same buffer. */
  method EcbDecrypt(key: Block, inp: array<Byte>, out: array<Byte>, rsbox: array<Byte>)
    requires inp.Length == 16 && out.Length == 16 && IsInverseTable(rsbox[..])
    modifies out
    ensures out[..] == Decrypt(key, old(inp[..]))
  {
    hide Load, RoundKey, AddRoundKey, InvSubBytes, InvShiftRows, InvMixColumns, IsInverseTable;
    var rk := Keys(key);
    ghost var ks := rk[..];
    var s, t := new Byte[16], new Byte[16];
    forall i | 0 <= i < 16 { s[i] := inp[i]; }
    assert s[..] == inp[..] == old(inp[..]);
    ghost var start := Load(inp[..], 0);
    AddRk(s, rk, 16 * 10);
    assert rk[..] == ks && Load(ks, 16 * 10) == RoundKey(key, 10);
    ghost var table := rsbox[..];
    assert table == old(rsbox[..]);
    var r := 10;
    while r != 0
      invariant 0 <= r <= 10 && rk[..] == ks && rsbox[..] == table
      invariant Load(s[..], 0) == Decrypting(key, start, r)
    {
      r := r - 1;
      ghost var b := s[..];
      InvShiftArray(s, t);
      assert s[..] == b && rsbox[..] == table;
      InvSubArray(t, rsbox);
      assert rk[..] == ks;
      AddRk(t, rk, 16 * r);
      assert rk[..] == ks && Load(ks, 16 * r) == RoundKey(key, r);
      ghost var u := t[..];
      if r != 0 {
        InvMixArray(t, s);
        assert t[..] == u;
      } else {
        forall i | 0 <= i < 16 { s[i] := t[i]; }
        assert s[..] == u;
      }
    }
    StoreLoad(s[..]);
    ghost var e := s[..];
    forall i | 0 <= i < 16 { out[i] := s[i]; }
    assert out[..] == e;
  }

  /** The inverse table, built on first use. */
  class Tables {
    const rsbox: array<Byte>
    var ready: bool

    ghost predicate Valid()
      reads this, rsbox
    {
      rsbox.Length == 256 && (ready ==> IsInverseTable(rsbox[..]))
    }

    constructor ()
      ensures Valid() && fresh(rsbox)
    {
      rsbox := new Byte[256];
      ready := false;
    }

    method DecryptBlock(key: Block, inp: array<Byte>, out: array<Byte>)
      requires Valid() && inp.Length == 16 && out.Length == 16
      modifies this, rsbox, out
      ensures Valid() && out[..] == Decrypt(key, old(inp[..]))
    {
      hide Decrypt, InvSBox;
      if !ready {
        BuildRsbox(rsbox);
        ready := true;
      }
      assert inp[..] == old(inp[..]);
      ghost var table := rsbox[..];
      EcbDecrypt(key, inp, out, rsbox);
      assert rsbox[..] == table;
    }
  }
}
