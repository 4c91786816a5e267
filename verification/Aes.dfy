/** AES-128 on one block: the cipher and inverse cipher of FIPS 197 section 5 as functions,
    and the proof that each undoes the other. */
module Aes {
  import opened Bytes
  import opened SBoxes
  import opened Gf256

  type Block = s: Octets | |s| == 16 witness seq(16, _ => 0)

  /** The state, by columns. */
  datatype State = State(p: Column, q: Column, r: Column, s: Column)

  function Col(s: Octets, i: nat): Column
    requires i + 4 <= |s|
  {
    Column(s[i], s[i + 1], s[i + 2], s[i + 3])
  }

  function Load(s: Octets, i: nat): State
    requires i + 16 <= |s|
  {
    State(Col(s, i), Col(s, i + 4), Col(s, i + 8), Col(s, i + 12))
  }

  function ColBytes(c: Column): Octets { [c.a, c.b, c.c, c.d] }

  function Store(t: State): Block { ColBytes(t.p) + ColBytes(t.q) + ColBytes(t.r) + ColBytes(t.s) }

  lemma LoadStore(t: State)
    ensures Load(Store(t), 0) == t
  {}

  lemma StoreLoad(s: Block)
    ensures Store(Load(s, 0)) == s
  {
    assert s == s[..4] + s[4..8] + s[8..12] + s[12..];
  }

  // ------------------------------------------------ the steps of a round

  function XorCol(x: Column, y: Column): Column {
    Column(Xor(x.a, y.a), Xor(x.b, y.b), Xor(x.c, y.c), Xor(x.d, y.d))
  }

  function SubWord(x: Column): Column { Column(SBox(x.a), SBox(x.b), SBox(x.c), SBox(x.d)) }

  function InvSubWord(x: Column): Column { Column(InvSBox(x.a), InvSBox(x.b), InvSBox(x.c), InvSBox(x.d)) }

  function AddRoundKey(t: State, k: State): State {
    State(XorCol(t.p, k.p), XorCol(t.q, k.q), XorCol(t.r, k.r), XorCol(t.s, k.s))
  }

  function SubBytes(t: State): State { State(SubWord(t.p), SubWord(t.q), SubWord(t.r), SubWord(t.s)) }

  function InvSubBytes(t: State): State {
    State(InvSubWord(t.p), InvSubWord(t.q), InvSubWord(t.r), InvSubWord(t.s))
  }

  /** Row i moves i columns to the left. */
  function ShiftRows(t: State): State {
    State(
      Column(t.p.a, t.q.b, t.r.c, t.s.d), Column(t.q.a, t.r.b, t.s.c, t.p.d),
      Column(t.r.a, t.s.b, t.p.c, t.q.d), Column(t.s.a, t.p.b, t.q.c, t.r.d))
  }

  /** Row i moves i columns to the right. */
  function InvShiftRows(t: State): State {
    State(
      Column(t.p.a, t.s.b, t.r.c, t.q.d), Column(t.q.a, t.p.b, t.s.c, t.r.d),
      Column(t.r.a, t.q.b, t.p.c, t.s.d), Column(t.s.a, t.r.b, t.q.c, t.p.d))
  }

  function MixColumns(t: State): State { State(MixColumn(t.p), MixColumn(t.q), MixColumn(t.r), MixColumn(t.s)) }

  function InvMixColumns(t: State): State {
    State(InvMixColumn(t.p), InvMixColumn(t.q), InvMixColumn(t.r), InvMixColumn(t.s))
  }

  lemma AddUndone(t: State, k: State)
    ensures AddRoundKey(AddRoundKey(t, k), k) == t
  {
    hide Xor;
    forall a: Byte, b: Byte ensures Xor(Xor(a, b), b) == a { XorCancels(a, b); }
  }

  lemma SubUndone(t: State)
    ensures InvSubBytes(SubBytes(t)) == t && SubBytes(InvSubBytes(t)) == t
  {
    hide SBox, InvSBox;
    forall x: Byte ensures InvSBox(SBox(x)) == x { InvSBoxUndoesSBox(x); }
    forall x: Byte ensures SBox(InvSBox(x)) == x { SBoxUndoesInvSBox(x); }
  }

  lemma ShiftUndone(t: State)
    ensures InvShiftRows(ShiftRows(t)) == t && ShiftRows(InvShiftRows(t)) == t
  {}

  lemma MixUndone(t: State)
    ensures InvMixColumns(MixColumns(t)) == t && MixColumns(InvMixColumns(t)) == t
  {
    hide MixColumn, InvMixColumn;
    MixColumnInverse(t.p); MixColumnInverse(t.q); MixColumnInverse(t.r); MixColumnInverse(t.s);
  }

  // ------------------------------------------------ key expansion

  function Rcon(i: nat): Byte {
    match i
    case 1 => 0x01 case 2 => 0x02 case 3 => 0x04 case 4 => 0x08 case 5 => 0x10
    case 6 => 0x20 case 7 => 0x40 case 8 => 0x80 case 9 => 0x1b case 10 => 0x36
    case _ => 0
  }

  /** The round constants are the powers of x. */
  lemma RconPowers(i: nat)
    ensures Rcon(1) == 1 && (1 <= i < 10 ==> Rcon(i + 1) == Xtime(Rcon(i)))
  {}

  function RotWord(x: Column): Column { Column(x.b, x.c, x.d, x.a) }

  /** Word `i` of the key schedule. */
  function KeyWord(key: Block, i: nat): Column {
    if i < 4 then Col(key, 4 * i)
    else
      var t := KeyWord(key, i - 1);
      XorCol(KeyWord(key, i - 4),
        if i % 4 == 0 then XorCol(SubWord(RotWord(t)), Column(Rcon(i / 4), 0, 0, 0)) else t)
  }

  function RoundKey(key: Block, r: nat): State {
    State(KeyWord(key, 4 * r), KeyWord(key, 4 * r + 1), KeyWord(key, 4 * r + 2), KeyWord(key, 4 * r + 3))
  }

  // ------------------------------------------------ the ciphers

  /** The state after `r` rounds of the cipher. */
  function Encrypting(key: Block, t: State, r: nat): State {
    if r == 0 then AddRoundKey(t, RoundKey(key, 0))
    else
      var u := ShiftRows(SubBytes(Encrypting(key, t, r - 1)));
      AddRoundKey(if r != 10 then MixColumns(u) else u, RoundKey(key, r))
  }

  /** The state of the inverse cipher when rounds 10 down to `r` are undone. */
  function Decrypting(key: Block, t: State, r: nat): State
    requires r <= 10
    decreases 10 - r
  {
    if r == 10 then AddRoundKey(t, RoundKey(key, 10))
    else
      var u := AddRoundKey(InvSubBytes(InvShiftRows(Decrypting(key, t, r + 1))), RoundKey(key, r));
      if r != 0 then InvMixColumns(u) else u
  }

  function Encrypt(key: Block, s: Block): Block { Store(Encrypting(key, Load(s, 0), 10)) }

  function Decrypt(key: Block, s: Block): Block { Store(Decrypting(key, Load(s, 0), 0)) }

  lemma {:induction false} DecryptUnwinds(key: Block, t: State, r: nat)
    requires 1 <= r <= 10
    ensures Decrypting(key, Encrypting(key, t, 10), r) == ShiftRows(SubBytes(Encrypting(key, t, r - 1)))
    decreases 10 - r
  {
    hide ShiftRows, SubBytes, MixColumns, InvShiftRows, InvSubBytes, InvMixColumns, AddRoundKey, RoundKey;
    var u := ShiftRows(SubBytes(Encrypting(key, t, r - 1)));
    if r == 10 {
      AddUndone(u, RoundKey(key, 10));
    } else {
      DecryptUnwinds(key, t, r + 1);
      var e := Encrypting(key, t, r);
      ShiftUndone(SubBytes(e));
      SubUndone(e);
      AddUndone(MixColumns(u), RoundKey(key, r));
      MixUndone(u);
    }
  }

  lemma {:induction false} EncryptUnwinds(key: Block, c: State, r: nat)
    requires r <= 9
    ensures Encrypting(key, Decrypting(key, c, 0), r) == InvSubBytes(InvShiftRows(Decrypting(key, c, r + 1)))
  {
    hide ShiftRows, SubBytes, MixColumns, InvShiftRows, InvSubBytes, InvMixColumns, AddRoundKey, RoundKey;
    var d := InvSubBytes(InvShiftRows(Decrypting(key, c, r + 1)));
    AddUndone(d, RoundKey(key, r));
    if r != 0 {
      EncryptUnwinds(key, c, r - 1);
      var p := Decrypting(key, c, r);
      SubUndone(InvShiftRows(p));
      ShiftUndone(p);
      MixUndone(AddRoundKey(d, RoundKey(key, r)));
    }
  }

  /** Under every key, decryption undoes encryption and encryption undoes decryption. */
  lemma AesInverse(key: Block, s: Block)
    ensures Decrypt(key, Encrypt(key, s)) == s && Encrypt(key, Decrypt(key, s)) == s
  {
    hide ShiftRows, SubBytes, MixColumns, InvShiftRows, InvSubBytes, InvMixColumns, AddRoundKey, RoundKey, Store, Load;
    var t := Load(s, 0);
    StoreLoad(s);
    LoadStore(Encrypting(key, t, 10));
    LoadStore(Decrypting(key, t, 0));
    DecryptUnwinds(key, t, 1);
    var e := Encrypting(key, t, 0);
    ShiftUndone(SubBytes(e));
    SubUndone(e);
    AddUndone(t, RoundKey(key, 0));
    EncryptUnwinds(key, t, 9);
    var p := Decrypting(key, t, 10);
    SubUndone(InvShiftRows(p));
    ShiftUndone(p);
    AddUndone(t, RoundKey(key, 10));
  }
}
