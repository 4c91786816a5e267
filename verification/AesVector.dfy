/** The AES-128 example of FIPS 197, appendix C.1: the key schedule and the cipher as defined
    give its round keys, its intermediate states and its ciphertext. */
module AesVector {
  import opened Bytes
  import opened Gf256
  import opened Aes

  const KEY: Block :=
    [0x00, 0x01, 0x02, 0x03, 0x04, 0x05, 0x06, 0x07, 0x08, 0x09, 0x0a, 0x0b, 0x0c, 0x0d, 0x0e, 0x0f]

  const PLAIN: Block :=
    [0x00, 0x11, 0x22, 0x33, 0x44, 0x55, 0x66, 0x77, 0x88, 0x99, 0xaa, 0xbb, 0xcc, 0xdd, 0xee, 0xff]

  const CIPHER: Block :=
    [0x69, 0xc4, 0xe0, 0xd8, 0x6a, 0x7b, 0x04, 0x30, 0xd8, 0xcd, 0xb7, 0x80, 0x70, 0xb4, 0xc5, 0x5a]

  /** Both constants of the mixing matrix by doubling. */
  function MixedColumn(s: Column): Column {
    var a, b, c, d := Xtime(s.a), Xtime(s.b), Xtime(s.c), Xtime(s.d);
    Column(
      Xor4(a, Xor(s.b, b), s.c, s.d), Xor4(s.a, b, Xor(s.c, c), s.d),
      Xor4(s.a, s.b, c, Xor(s.d, d)), Xor4(Xor(s.a, a), s.b, s.c, d))
  }

  function Mixed(t: State): State { State(MixedColumn(t.p), MixedColumn(t.q), MixedColumn(t.r), MixedColumn(t.s)) }

  lemma MixedIs(s: Column)
    ensures MixColumn(s) == MixedColumn(s)
  {
    hide Gmul, Xtime, Xor, Xor4;
    GmulSmall(s.a); GmulSmall(s.b); GmulSmall(s.c); GmulSmall(s.d);
  }

  /** One step of the key schedule, from round key to round key. */
  function NextKey(k: State, rcon: Byte): State {
    var p := XorCol(k.p, XorCol(SubWord(RotWord(k.s)), Column(rcon, 0, 0, 0)));
    var q := XorCol(k.q, p);
    var r := XorCol(k.r, q);
    State(p, q, r, XorCol(k.s, r))
  }

  lemma NextKeyIs(key: Block, r: nat)
    ensures RoundKey(key, r + 1) == NextKey(RoundKey(key, r), Rcon(r + 1))
  {
    hide XorCol, SubWord, RotWord, Rcon;
    var i := 4 * r;
    assert i % 4 == 0 && (i + 1) % 4 == 1 && (i + 2) % 4 == 2 && (i + 3) % 4 == 3 && (i + 4) / 4 == r + 1;
    assert (i + 4) % 4 == 0 && (i + 5) % 4 == 1 && (i + 6) % 4 == 2 && (i + 7) % 4 == 3;
    assert KeyWord(key, i + 4) == NextKey(RoundKey(key, r), Rcon(r + 1)).p;
    assert KeyWord(key, i + 5) == NextKey(RoundKey(key, r), Rcon(r + 1)).q;
    assert KeyWord(key, i + 6) == NextKey(RoundKey(key, r), Rcon(r + 1)).r;
  }

  function NextState(t: State, k: State): State { AddRoundKey(Mixed(ShiftRows(SubBytes(t))), k) }

  lemma NextStateIs(key: Block, t: State, r: nat)
    requires r < 9
    ensures Encrypting(key, t, r + 1) == NextState(Encrypting(key, t, r), RoundKey(key, r + 1))
  {
    hide MixColumn, MixedColumn, SubBytes, ShiftRows, AddRoundKey, RoundKey;
    var u := ShiftRows(SubBytes(Encrypting(key, t, r)));
    MixedIs(u.p); MixedIs(u.q); MixedIs(u.r); MixedIs(u.s);
  }

  // ------------------------------------------------ the round keys

  lemma Key0()
    ensures RoundKey(KEY, 0) ==
      State(Column(0x00, 0x01, 0x02, 0x03), Column(0x04, 0x05, 0x06, 0x07),
        Column(0x08, 0x09, 0x0a, 0x0b), Column(0x0c, 0x0d, 0x0e, 0x0f))
  {}

  lemma Key1()
    ensures RoundKey(KEY, 1) ==
      State(Column(0xd6, 0xaa, 0x74, 0xfd), Column(0xd2, 0xaf, 0x72, 0xfa),
        Column(0xda, 0xa6, 0x78, 0xf1), Column(0xd6, 0xab, 0x76, 0xfe))
  {
    hide RoundKey;
    Key0();
    NextKeyIs(KEY, 0);
    assert NextKey(
      State(Column(0x00, 0x01, 0x02, 0x03), Column(0x04, 0x05, 0x06, 0x07),
        Column(0x08, 0x09, 0x0a, 0x0b), Column(0x0c, 0x0d, 0x0e, 0x0f)), Rcon(1)) ==
      State(Column(0xd6, 0xaa, 0x74, 0xfd), Column(0xd2, 0xaf, 0x72, 0xfa),
        Column(0xda, 0xa6, 0x78, 0xf1), Column(0xd6, 0xab, 0x76, 0xfe));
  }

  lemma Key2()
    ensures RoundKey(KEY, 2) ==
      State(Column(0xb6, 0x92, 0xcf, 0x0b), Column(0x64, 0x3d, 0xbd, 0xf1),
        Column(0xbe, 0x9b, 0xc5, 0x00), Column(0x68, 0x30, 0xb3, 0xfe))
  {
    hide RoundKey;
    Key1();
    NextKeyIs(KEY, 1);
    assert NextKey(
      State(Column(0xd6, 0xaa, 0x74, 0xfd), Column(0xd2, 0xaf, 0x72, 0xfa),
        Column(0xda, 0xa6, 0x78, 0xf1), Column(0xd6, 0xab, 0x76, 0xfe)), Rcon(2)) ==
      State(Column(0xb6, 0x92, 0xcf, 0x0b), Column(0x64, 0x3d, 0xbd, 0xf1),
        Column(0xbe, 0x9b, 0xc5, 0x00), Column(0x68, 0x30, 0xb3, 0xfe));
  }

  lemma Key3()
    ensures RoundKey(KEY, 3) ==
      State(Column(0xb6, 0xff, 0x74, 0x4e), Column(0xd2, 0xc2, 0xc9, 0xbf),
        Column(0x6c, 0x59, 0x0c, 0xbf), Column(0x04, 0x69, 0xbf, 0x41))
  {
    hide RoundKey;
    Key2();
    NextKeyIs(KEY, 2);
    assert NextKey(
      State(Column(0xb6, 0x92, 0xcf, 0x0b), Column(0x64, 0x3d, 0xbd, 0xf1),
        Column(0xbe, 0x9b, 0xc5, 0x00), Column(0x68, 0x30, 0xb3, 0xfe)), Rcon(3)) ==
      State(Column(0xb6, 0xff, 0x74, 0x4e), Column(0xd2, 0xc2, 0xc9, 0xbf),
        Column(0x6c, 0x59, 0x0c, 0xbf), Column(0x04, 0x69, 0xbf, 0x41));
  }

  lemma Key4()
    ensures RoundKey(KEY, 4) ==
      State(Column(0x47, 0xf7, 0xf7, 0xbc), Column(0x95, 0x35, 0x3e, 0x03),
        Column(0xf9, 0x6c, 0x32, 0xbc), Column(0xfd, 0x05, 0x8d, 0xfd))
  {
    hide RoundKey;
    Key3();
    NextKeyIs(KEY, 3);
    assert NextKey(
      State(Column(0xb6, 0xff, 0x74, 0x4e), Column(0xd2, 0xc2, 0xc9, 0xbf),
        Column(0x6c, 0x59, 0x0c, 0xbf), Column(0x04, 0x69, 0xbf, 0x41)), Rcon(4)) ==
      State(Column(0x47, 0xf7, 0xf7, 0xbc), Column(0x95, 0x35, 0x3e, 0x03),
        Column(0xf9, 0x6c, 0x32, 0xbc), Column(0xfd, 0x05, 0x8d, 0xfd));
  }

  lemma Key5()
    ensures RoundKey(KEY, 5) ==
      State(Column(0x3c, 0xaa, 0xa3, 0xe8), Column(0xa9, 0x9f, 0x9d, 0xeb),
        Column(0x50, 0xf3, 0xaf, 0x57), Column(0xad, 0xf6, 0x22, 0xaa))
  {
    hide RoundKey;
    Key4();
    NextKeyIs(KEY, 4);
    assert NextKey(
      State(Column(0x47, 0xf7, 0xf7, 0xbc), Column(0x95, 0x35, 0x3e, 0x03),
        Column(0xf9, 0x6c, 0x32, 0xbc), Column(0xfd, 0x05, 0x8d, 0xfd)), Rcon(5)) ==
      State(Column(0x3c, 0xaa, 0xa3, 0xe8), Column(0xa9, 0x9f, 0x9d, 0xeb),
        Column(0x50, 0xf3, 0xaf, 0x57), Column(0xad, 0xf6, 0x22, 0xaa));
  }

  lemma Key6()
    ensures RoundKey(KEY, 6) ==
      State(Column(0x5e, 0x39, 0x0f, 0x7d), Column(0xf7, 0xa6, 0x92, 0x96),
        Column(0xa7, 0x55, 0x3d, 0xc1), Column(0x0a, 0xa3, 0x1f, 0x6b))
  {
    hide RoundKey;
    Key5();
    NextKeyIs(KEY, 5);
    assert NextKey(
      State(Column(0x3c, 0xaa, 0xa3, 0xe8), Column(0xa9, 0x9f, 0x9d, 0xeb),
        Column(0x50, 0xf3, 0xaf, 0x57), Column(0xad, 0xf6, 0x22, 0xaa)), Rcon(6)) ==
      State(Column(0x5e, 0x39, 0x0f, 0x7d), Column(0xf7, 0xa6, 0x92, 0x96),
        Column(0xa7, 0x55, 0x3d, 0xc1), Column(0x0a, 0xa3, 0x1f, 0x6b));
  }

  lemma Key7()
    ensures RoundKey(KEY, 7) ==
      State(Column(0x14, 0xf9, 0x70, 0x1a), Column(0xe3, 0x5f, 0xe2, 0x8c),
        Column(0x44, 0x0a, 0xdf, 0x4d), Column(0x4e, 0xa9, 0xc0, 0x26))
  {
    hide RoundKey;
    Key6();
    NextKeyIs(KEY, 6);
    assert NextKey(
      State(Column(0x5e, 0x39, 0x0f, 0x7d), Column(0xf7, 0xa6, 0x92, 0x96),
        Column(0xa7, 0x55, 0x3d, 0xc1), Column(0x0a, 0xa3, 0x1f, 0x6b)), Rcon(7)) ==
      State(Column(0x14, 0xf9, 0x70, 0x1a), Column(0xe3, 0x5f, 0xe2, 0x8c),
        Column(0x44, 0x0a, 0xdf, 0x4d), Column(0x4e, 0xa9, 0xc0, 0x26));
  }

  lemma Key8()
    ensures RoundKey(KEY, 8) ==
      State(Column(0x47, 0x43, 0x87, 0x35), Column(0xa4, 0x1c, 0x65, 0xb9),
        Column(0xe0, 0x16, 0xba, 0xf4), Column(0xae, 0xbf, 0x7a, 0xd2))
  {
    hide RoundKey;
    Key7();
    NextKeyIs(KEY, 7);
    assert NextKey(
      State(Column(0x14, 0xf9, 0x70, 0x1a), Column(0xe3, 0x5f, 0xe2, 0x8c),
        Column(0x44, 0x0a, 0xdf, 0x4d), Column(0x4e, 0xa9, 0xc0, 0x26)), Rcon(8)) ==
      State(Column(0x47, 0x43, 0x87, 0x35), Column(0xa4, 0x1c, 0x65, 0xb9),
        Column(0xe0, 0x16, 0xba, 0xf4), Column(0xae, 0xbf, 0x7a, 0xd2));
  }

  lemma Key9()
    ensures RoundKey(KEY, 9) ==
      State(Column(0x54, 0x99, 0x32, 0xd1), Column(0xf0, 0x85, 0x57, 0x68),
        Column(0x10, 0x93, 0xed, 0x9c), Column(0xbe, 0x2c, 0x97, 0x4e))
  {
    hide RoundKey;
    Key8();
    NextKeyIs(KEY, 8);
    assert NextKey(
      State(Column(0x47, 0x43, 0x87, 0x35), Column(0xa4, 0x1c, 0x65, 0xb9),
        Column(0xe0, 0x16, 0xba, 0xf4), Column(0xae, 0xbf, 0x7a, 0xd2)), Rcon(9)) ==
      State(Column(0x54, 0x99, 0x32, 0xd1), Column(0xf0, 0x85, 0x57, 0x68),
        Column(0x10, 0x93, 0xed, 0x9c), Column(0xbe, 0x2c, 0x97, 0x4e));
  }

  lemma Key10()
    ensures RoundKey(KEY, 10) ==
      State(Column(0x13, 0x11, 0x1d, 0x7f), Column(0xe3, 0x94, 0x4a, 0x17),
        Column(0xf3, 0x07, 0xa7, 0x8b), Column(0x4d, 0x2b, 0x30, 0xc5))
  {
    hide RoundKey;
    Key9();
    NextKeyIs(KEY, 9);
    assert NextKey(
      State(Column(0x54, 0x99, 0x32, 0xd1), Column(0xf0, 0x85, 0x57, 0x68),
        Column(0x10, 0x93, 0xed, 0x9c), Column(0xbe, 0x2c, 0x97, 0x4e)), Rcon(10)) ==
      State(Column(0x13, 0x11, 0x1d, 0x7f), Column(0xe3, 0x94, 0x4a, 0x17),
        Column(0xf3, 0x07, 0xa7, 0x8b), Column(0x4d, 0x2b, 0x30, 0xc5));
  }

  // ------------------------------------------------ the states

  /** The state at the start of a round. */
  function At(r: nat): State { Encrypting(KEY, Load(PLAIN, 0), r) }

  lemma State0()
    ensures At(0) ==
      State(Column(0x00, 0x10, 0x20, 0x30), Column(0x40, 0x50, 0x60, 0x70),
        Column(0x80, 0x90, 0xa0, 0xb0), Column(0xc0, 0xd0, 0xe0, 0xf0))
  {
    Key0();
    hide RoundKey;
  }

  lemma State1()
    ensures At(1) ==
      State(Column(0x89, 0xd8, 0x10, 0xe8), Column(0x85, 0x5a, 0xce, 0x68),
        Column(0x2d, 0x18, 0x43, 0xd8), Column(0xcb, 0x12, 0x8f, 0xe4))
  {
    hide RoundKey, Encrypting;
    State0();
    Key1();
    NextStateIs(KEY, Load(PLAIN, 0), 0);
    assert NextState(
      State(Column(0x00, 0x10, 0x20, 0x30), Column(0x40, 0x50, 0x60, 0x70),
        Column(0x80, 0x90, 0xa0, 0xb0), Column(0xc0, 0xd0, 0xe0, 0xf0)),
      State(Column(0xd6, 0xaa, 0x74, 0xfd), Column(0xd2, 0xaf, 0x72, 0xfa),
        Column(0xda, 0xa6, 0x78, 0xf1), Column(0xd6, 0xab, 0x76, 0xfe))) ==
      State(Column(0x89, 0xd8, 0x10, 0xe8), Column(0x85, 0x5a, 0xce, 0x68),
        Column(0x2d, 0x18, 0x43, 0xd8), Column(0xcb, 0x12, 0x8f, 0xe4));
  }

  lemma State2()
    ensures At(2) ==
      State(Column(0x49, 0x15, 0x59, 0x8f), Column(0x55, 0xe5, 0xd7, 0xa0),
        Column(0xda, 0xca, 0x94, 0xfa), Column(0x1f, 0x0a, 0x63, 0xf7))
  {
    hide RoundKey, Encrypting;
    State1();
    Key2();
    NextStateIs(KEY, Load(PLAIN, 0), 1);
    assert NextState(
      State(Column(0x89, 0xd8, 0x10, 0xe8), Column(0x85, 0x5a, 0xce, 0x68),
        Column(0x2d, 0x18, 0x43, 0xd8), Column(0xcb, 0x12, 0x8f, 0xe4)),
      State(Column(0xb6, 0x92, 0xcf, 0x0b), Column(0x64, 0x3d, 0xbd, 0xf1),
        Column(0xbe, 0x9b, 0xc5, 0x00), Column(0x68, 0x30, 0xb3, 0xfe))) ==
      State(Column(0x49, 0x15, 0x59, 0x8f), Column(0x55, 0xe5, 0xd7, 0xa0),
        Column(0xda, 0xca, 0x94, 0xfa), Column(0x1f, 0x0a, 0x63, 0xf7));
  }

  lemma State3()
    ensures At(3) ==
      State(Column(0xfa, 0x63, 0x6a, 0x28), Column(0x25, 0xb3, 0x39, 0xc9),
        Column(0x40, 0x66, 0x8a, 0x31), Column(0x57, 0x24, 0x4d, 0x17))
  {
    hide RoundKey, Encrypting;
    State2();
    Key3();
    NextStateIs(KEY, Load(PLAIN, 0), 2);
    assert NextState(
      State(Column(0x49, 0x15, 0x59, 0x8f), Column(0x55, 0xe5, 0xd7, 0xa0),
        Column(0xda, 0xca, 0x94, 0xfa), Column(0x1f, 0x0a, 0x63, 0xf7)),
      State(Column(0xb6, 0xff, 0x74, 0x4e), Column(0xd2, 0xc2, 0xc9, 0xbf),
        Column(0x6c, 0x59, 0x0c, 0xbf), Column(0x04, 0x69, 0xbf, 0x41))) ==
      State(Column(0xfa, 0x63, 0x6a, 0x28), Column(0x25, 0xb3, 0x39, 0xc9),
        Column(0x40, 0x66, 0x8a, 0x31), Column(0x57, 0x24, 0x4d, 0x17));
  }

  lemma State4()
    ensures At(4) ==
      State(Column(0x24, 0x72, 0x40, 0x23), Column(0x69, 0x66, 0xb3, 0xfa),
        Column(0x6e, 0xd2, 0x75, 0x32), Column(0x88, 0x42, 0x5b, 0x6c))
  {
    hide RoundKey, Encrypting;
    State3();
    Key4();
    NextStateIs(KEY, Load(PLAIN, 0), 3);
    assert NextState(
      State(Column(0xfa, 0x63, 0x6a, 0x28), Column(0x25, 0xb3, 0x39, 0xc9),
        Column(0x40, 0x66, 0x8a, 0x31), Column(0x57, 0x24, 0x4d, 0x17)),
      State(Column(0x47, 0xf7, 0xf7, 0xbc), Column(0x95, 0x35, 0x3e, 0x03),
        Column(0xf9, 0x6c, 0x32, 0xbc), Column(0xfd, 0x05, 0x8d, 0xfd))) ==
      State(Column(0x24, 0x72, 0x40, 0x23), Column(0x69, 0x66, 0xb3, 0xfa),
        Column(0x6e, 0xd2, 0x75, 0x32), Column(0x88, 0x42, 0x5b, 0x6c));
  }

  lemma State5()
    ensures At(5) ==
      State(Column(0xc8, 0x16, 0x77, 0xbc), Column(0x9b, 0x7a, 0xc9, 0x3b),
        Column(0x25, 0x02, 0x79, 0x92), Column(0xb0, 0x26, 0x19, 0x96))
  {
    hide RoundKey, Encrypting;
    State4();
    Key5();
    NextStateIs(KEY, Load(PLAIN, 0), 4);
    assert NextState(
      State(Column(0x24, 0x72, 0x40, 0x23), Column(0x69, 0x66, 0xb3, 0xfa),
        Column(0x6e, 0xd2, 0x75, 0x32), Column(0x88, 0x42, 0x5b, 0x6c)),
      State(Column(0x3c, 0xaa, 0xa3, 0xe8), Column(0xa9, 0x9f, 0x9d, 0xeb),
        Column(0x50, 0xf3, 0xaf, 0x57), Column(0xad, 0xf6, 0x22, 0xaa))) ==
      State(Column(0xc8, 0x16, 0x77, 0xbc), Column(0x9b, 0x7a, 0xc9, 0x3b),
        Column(0x25, 0x02, 0x79, 0x92), Column(0xb0, 0x26, 0x19, 0x96));
  }

  lemma State6()
    ensures At(6) ==
      State(Column(0xc6, 0x2f, 0xe1, 0x09), Column(0xf7, 0x5e, 0xed, 0xc3),
        Column(0xcc, 0x79, 0x39, 0x5d), Column(0x84, 0xf9, 0xcf, 0x5d))
  {
    hide RoundKey, Encrypting;
    State5();
    Key6();
    NextStateIs(KEY, Load(PLAIN, 0), 5);
    assert NextState(
      State(Column(0xc8, 0x16, 0x77, 0xbc), Column(0x9b, 0x7a, 0xc9, 0x3b),
        Column(0x25, 0x02, 0x79, 0x92), Column(0xb0, 0x26, 0x19, 0x96)),
      State(Column(0x5e, 0x39, 0x0f, 0x7d), Column(0xf7, 0xa6, 0x92, 0x96),
        Column(0xa7, 0x55, 0x3d, 0xc1), Column(0x0a, 0xa3, 0x1f, 0x6b))) ==
      State(Column(0xc6, 0x2f, 0xe1, 0x09), Column(0xf7, 0x5e, 0xed, 0xc3),
        Column(0xcc, 0x79, 0x39, 0x5d), Column(0x84, 0xf9, 0xcf, 0x5d));
  }

  lemma State7()
    ensures At(7) ==
      State(Column(0xd1, 0x87, 0x6c, 0x0f), Column(0x79, 0xc4, 0x30, 0x0a),
        Column(0xb4, 0x55, 0x94, 0xad), Column(0xd6, 0x6f, 0xf4, 0x1f))
  {
    hide RoundKey, Encrypting;
    State6();
    Key7();
    NextStateIs(KEY, Load(PLAIN, 0), 6);
    assert NextState(
      State(Column(0xc6, 0x2f, 0xe1, 0x09), Column(0xf7, 0x5e, 0xed, 0xc3),
        Column(0xcc, 0x79, 0x39, 0x5d), Column(0x84, 0xf9, 0xcf, 0x5d)),
      State(Column(0x14, 0xf9, 0x70, 0x1a), Column(0xe3, 0x5f, 0xe2, 0x8c),
        Column(0x44, 0x0a, 0xdf, 0x4d), Column(0x4e, 0xa9, 0xc0, 0x26))) ==
      State(Column(0xd1, 0x87, 0x6c, 0x0f), Column(0x79, 0xc4, 0x30, 0x0a),
        Column(0xb4, 0x55, 0x94, 0xad), Column(0xd6, 0x6f, 0xf4, 0x1f));
  }

  lemma State8()
    ensures At(8) ==
      State(Column(0xfd, 0xe3, 0xba, 0xd2), Column(0x05, 0xe5, 0xd0, 0xd7),
        Column(0x35, 0x47, 0x96, 0x4e), Column(0xf1, 0xfe, 0x37, 0xf1))
  {
    hide RoundKey, Encrypting;
    State7();
    Key8();
    NextStateIs(KEY, Load(PLAIN, 0), 7);
    assert NextState(
      State(Column(0xd1, 0x87, 0x6c, 0x0f), Column(0x79, 0xc4, 0x30, 0x0a),
        Column(0xb4, 0x55, 0x94, 0xad), Column(0xd6, 0x6f, 0xf4, 0x1f)),
      State(Column(0x47, 0x43, 0x87, 0x35), Column(0xa4, 0x1c, 0x65, 0xb9),
        Column(0xe0, 0x16, 0xba, 0xf4), Column(0xae, 0xbf, 0x7a, 0xd2))) ==
      State(Column(0xfd, 0xe3, 0xba, 0xd2), Column(0x05, 0xe5, 0xd0, 0xd7),
        Column(0x35, 0x47, 0x96, 0x4e), Column(0xf1, 0xfe, 0x37, 0xf1));
  }

  lemma State9()
    ensures At(9) ==
      State(Column(0xbd, 0x6e, 0x7c, 0x3d), Column(0xf2, 0xb5, 0x77, 0x9e),
        Column(0x0b, 0x61, 0x21, 0x6e), Column(0x8b, 0x10, 0xb6, 0x89))
  {
    hide RoundKey, Encrypting;
    State8();
    Key9();
    NextStateIs(KEY, Load(PLAIN, 0), 8);
    assert NextState(
      State(Column(0xfd, 0xe3, 0xba, 0xd2), Column(0x05, 0xe5, 0xd0, 0xd7),
        Column(0x35, 0x47, 0x96, 0x4e), Column(0xf1, 0xfe, 0x37, 0xf1)),
      State(Column(0x54, 0x99, 0x32, 0xd1), Column(0xf0, 0x85, 0x57, 0x68),
        Column(0x10, 0x93, 0xed, 0x9c), Column(0xbe, 0x2c, 0x97, 0x4e))) ==
      State(Column(0xbd, 0x6e, 0x7c, 0x3d), Column(0xf2, 0xb5, 0x77, 0x9e),
        Column(0x0b, 0x61, 0x21, 0x6e), Column(0x8b, 0x10, 0xb6, 0x89));
  }

  /** The last round does not mix columns. */
  lemma LastIs(key: Block, t: State)
    ensures Encrypting(key, t, 10) == AddRoundKey(ShiftRows(SubBytes(Encrypting(key, t, 9))), RoundKey(key, 10))
  {}

  lemma LastState()
    ensures Encrypt(KEY, PLAIN) == CIPHER
  {
    hide RoundKey, MixColumns, Encrypting, Load;
    State9();
    Key10();
    LastIs(KEY, Load(PLAIN, 0));
    assert Store(AddRoundKey(ShiftRows(SubBytes(
      State(Column(0xbd, 0x6e, 0x7c, 0x3d), Column(0xf2, 0xb5, 0x77, 0x9e),
        Column(0x0b, 0x61, 0x21, 0x6e), Column(0x8b, 0x10, 0xb6, 0x89)))),
      State(Column(0x13, 0x11, 0x1d, 0x7f), Column(0xe3, 0x94, 0x4a, 0x17),
        Column(0xf3, 0x07, 0xa7, 0x8b), Column(0x4d, 0x2b, 0x30, 0xc5)))) == CIPHER;
  }

  /** The example: the plaintext becomes the ciphertext, and back. */
  lemma Example()
    ensures Encrypt(KEY, PLAIN) == CIPHER && Decrypt(KEY, CIPHER) == PLAIN
  {
    hide Encrypt, Decrypt;
    LastState();
    AesInverse(KEY, PLAIN);
  }
}
