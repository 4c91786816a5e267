/** The formats of sections 12.7.1 and 12.7.2 of IEEE Std 802.11-2020 written out: which bytes of the
    pairwise key are which key, and where the fields of an EAPOL-Key frame lie. */
module EapolWire {
  import opened Bytes
  import opened Sha1
  import opened Hmac
  import opened Aes
  import opened Eapol
  import opened Handshake

  // ------------------------------------------------ the pairwise key

  ghost predicate FirstDifference(a: Octets, b: Octets, k: nat)
    requires |a| == |b|
  {
    k < |a| && a[k] != b[k] && forall i :: 0 <= i < k ==> a[i] == b[i]
  }

  /** Ordered by the first byte in which they differ. */
  ghost predicate Before(a: Octets, b: Octets)
    requires |a| == |b|
  {
    exists k: nat :: k < |a| && FirstDifference(a, b, k) && a[k] < b[k]
  }

  lemma Behind(a: Octets, x: Byte, k: nat)
    requires 0 < k <= |a|
    ensures ([x] + a)[k] == a[k - 1]
  {}

  lemma DifferenceGrows(a: Octets, b: Octets, x: Byte, k: nat)
    requires |a| == |b| && FirstDifference(a, b, k)
    ensures FirstDifference([x] + a, [x] + b, k + 1)
  {
    Behind(a, x, k + 1);
    Behind(b, x, k + 1);
    forall i | 0 < i < k + 1 ensures ([x] + a)[i] == ([x] + b)[i] {
      Behind(a, x, i);
      Behind(b, x, i);
      assert a[i - 1] == b[i - 1];
    }
  }

  lemma BeforeGrows(a: Octets, b: Octets, x: Byte)
    requires |a| == |b| && Before(a, b)
    ensures Before([x] + a, [x] + b)
  {
    hide FirstDifference;
    var k: nat :| k < |a| && FirstDifference(a, b, k) && a[k] < b[k];
    DifferenceGrows(a, b, x, k);
    Behind(a, x, k + 1);
    Behind(b, x, k + 1);
  }

  lemma DifferenceBehind(a: Octets, b: Octets, x: Byte, y: Byte, k: nat)
    requires |a| == |b| && k > 0 && FirstDifference([x] + a, [y] + b, k)
    ensures x == y && FirstDifference(a, b, k - 1)
  {
    var c, d := [x] + a, [y] + b;
    assert c[0] == d[0];
    Behind(a, x, k);
    Behind(b, y, k);
    forall i | 0 <= i < k - 1 ensures a[i] == b[i] {
      Behind(a, x, i + 1);
      Behind(b, y, i + 1);
      assert c[i + 1] == d[i + 1];
    }
  }

  lemma BeforeSplits(a: Octets, b: Octets, x: Byte, y: Byte)
    requires |a| == |b| && Before([x] + a, [y] + b)
    ensures x < y || (x == y && Before(a, b))
  {
    hide FirstDifference;
    var k: nat :| k <= |a| && FirstDifference([x] + a, [y] + b, k) && ([x] + a)[k] < ([y] + b)[k];
    if k > 0 {
      DifferenceBehind(a, b, x, y, k);
      Behind(a, x, k);
      Behind(b, y, k);
    }
  }

  lemma BeforeIs(a: Octets, b: Octets, x: Byte, y: Byte)
    requires |a| == |b|
    ensures Before([x] + a, [y] + b) <==> x < y || (x == y && Before(a, b))
  {
    if x < y { assert FirstDifference([x] + a, [y] + b, 0); }
    hide Before;
    if Before(a, b) { BeforeGrows(a, b, x); }
    if Before([x] + a, [y] + b) { BeforeSplits(a, b, x, y); }
  }

  lemma NothingBefore(a: Octets, b: Octets)
    requires a == b == []
    ensures !Before(a, b)
  {}

  lemma {:induction false} LessIsBefore(a: Octets, b: Octets)
    requires |a| == |b|
    ensures Less(a, b) <==> Before(a, b)
  {
    hide Before;
    if a == [] {
      NothingBefore(a, b);
    } else {
      var x, y, c, d := a[0], b[0], a[1..], b[1..];
      assert a == [x] + c && b == [y] + d;
      LessIsBefore(c, d);
      BeforeIs(c, d, x, y);
    }
  }

  /** Two texts of the same length, the smaller one first. */
  ghost function Sorted(a: Octets, b: Octets): Octets
    requires |a| == |b|
  {
    if Before(a, b) then a + b else b + a
  }

  function Ascii(s: string): Octets
    requires forall i :: 0 <= i < |s| ==> s[i] < 128 as char
  {
    seq(|s|, i requires 0 <= i < |s| => ToByte(s[i] as nat))
  }

  lemma Letter(n: nat, b: Byte)
    requires Value(b) == n
    ensures ToByte(n) == b
  {
    hide Value, ToByte;
    ByteValue(n);
    ValueInjective(ToByte(n), b);
  }

  lemma Letters1()
    ensures Value(0x20) == ' ' as nat && Value(0x50) == 'P' as nat && Value(0x61) == 'a' as nat && Value(0x65) == 'e' as nat
  {}

  lemma Letters2()
    ensures Value(0x69) == 'i' as nat && Value(0x6b) == 'k' as nat && Value(0x6e) == 'n' as nat && Value(0x6f) == 'o' as nat
  {}

  lemma Letters3()
    ensures Value(0x70) == 'p' as nat && Value(0x72) == 'r' as nat && Value(0x73) == 's' as nat && Value(0x77) == 'w' as nat
  {}

  lemma Letters4()
    ensures Value(0x78) == 'x' as nat && Value(0x79) == 'y' as nat
  {}

  lemma Label()
    ensures PTK_LABEL == Ascii("Pairwise key expansion")
  {
    hide ToByte, Value;
    Letters1(); Letters2(); Letters3(); Letters4();
    Letter(' ' as nat, 0x20); Letter('P' as nat, 0x50); Letter('a' as nat, 0x61); Letter('e' as nat, 0x65);
    Letter('i' as nat, 0x69); Letter('k' as nat, 0x6b); Letter('n' as nat, 0x6e); Letter('o' as nat, 0x6f);
    Letter('p' as nat, 0x70); Letter('r' as nat, 0x72); Letter('s' as nat, 0x73); Letter('w' as nat, 0x77);
    Letter('x' as nat, 0x78); Letter('y' as nat, 0x79);
  }

  /** Block i of the expansion: label, a zero byte, both addresses and both nonces, i. */
  ghost function ExpansionBlock(pmk: Octets, aa: Mac, spa: Mac, an: Nonce, sn: Nonce, i: Byte): Tag {
    HmacSha1(pmk, Ascii("Pairwise key expansion") + [0] + (Sorted(aa, spa) + Sorted(an, sn)) + [i])
  }

  /** The first 48 bytes of blocks 0, 1 and 2. */
  ghost function StandardPtk(pmk: Octets, aa: Mac, spa: Mac, an: Nonce, sn: Nonce): Ptk {
    hide ExpansionBlock;
    ExpansionBlock(pmk, aa, spa, an, sn, 0) + ExpansionBlock(pmk, aa, spa, an, sn, 1)
    + ExpansionBlock(pmk, aa, spa, an, sn, 2)[..8]
  }

  lemma MinMaxSorts(a: Octets, b: Octets)
    requires |a| == |b|
    ensures MinMax(a, b) == Sorted(a, b)
  {
    LessIsBefore(a, b);
  }

  lemma SmallBytes()
    ensures ToByte(0) == 0 && ToByte(1) == 1 && ToByte(2) == 2
  {
    hide ToByte, Value;
    SmallNumbers();
    Letter(0, 0); Letter(1, 1); Letter(2, 2);
  }

  lemma SmallNumbers()
    ensures Value(0) == 0 && Value(1) == 1 && Value(2) == 2
  {}

  lemma ThreeBlocks(key: Octets, tag: Octets, seed: Octets)
    ensures Prf(key, tag, seed, 48) ==
      HmacSha1(key, tag + [0] + seed + [0]) + HmacSha1(key, tag + [0] + seed + [1]) + HmacSha1(key, tag + [0] + seed + [2])[..8]
  {
    hide HmacSha1, ToByte;
    SmallBytes();
    assert BlocksFor(48) == 3;
    var b0: Octets, b1: Octets, b2: Octets := PrfBlock(key, tag, seed, 0), PrfBlock(key, tag, seed, 1), PrfBlock(key, tag, seed, 2);
    assert PrfBlocks(key, tag, seed, 1) == b0;
    assert PrfBlocks(key, tag, seed, 2) == b0 + b1;
    assert PrfBlocks(key, tag, seed, 3) == b0 + b1 + b2;
  }

  lemma PtkIsStandard(pmk: Octets, aa: Mac, spa: Mac, an: Nonce, sn: Nonce)
    ensures DerivePtk(pmk, aa, spa, an, sn) == StandardPtk(pmk, aa, spa, an, sn)
  {
    hide HmacSha1, Prf, MinMax, Sorted, Ascii;
    Label();
    MinMaxSorts(aa, spa);
    MinMaxSorts(an, sn);
    ThreeBlocks(pmk, PTK_LABEL, MinMax(aa, spa) + MinMax(an, sn));
  }

  datatype Keys = Keys(confirm: Block, encrypt: Block, temporal: Block)

  function Divide(b0: Tag, b1: Tag, b2: Tag): Keys {
    Keys(b0[..16], b0[16..] + b1[..12], b1[12..] + b2[..8])
  }

  /** KCK: the first 16 bytes of block 0. KEK: its last four and twelve of block 1. TK: the other
      eight of block 1 and eight of block 2. */
  ghost function StandardKeys(pmk: Octets, aa: Mac, spa: Mac, an: Nonce, sn: Nonce): Keys {
    hide ExpansionBlock, Divide;
    Divide(ExpansionBlock(pmk, aa, spa, an, sn, 0), ExpansionBlock(pmk, aa, spa, an, sn, 1), ExpansionBlock(pmk, aa, spa, an, sn, 2))
  }

  lemma Slices(b0: Tag, b1: Tag, b2: Tag, p: Ptk)
    requires p == b0 + b1 + b2[..8]
    ensures Divide(b0, b1, b2) == Keys(Kck(p), Kek(p), Tk(p))
  {}

  /** The derived key is divided as the standard divides it. */
  lemma PtkParts(pmk: Octets, aa: Mac, spa: Mac, an: Nonce, sn: Nonce)
    ensures var p := DerivePtk(pmk, aa, spa, an, sn);
      StandardKeys(pmk, aa, spa, an, sn) == Keys(Kck(p), Kek(p), Tk(p))
  {
    hide DerivePtk, ExpansionBlock, Divide, Kck, Kek, Tk;
    PtkIsStandard(pmk, aa, spa, an, sn);
    Slices(ExpansionBlock(pmk, aa, spa, an, sn, 0), ExpansionBlock(pmk, aa, spa, an, sn, 1), ExpansionBlock(pmk, aa, spa, an, sn, 2),
      DerivePtk(pmk, aa, spa, an, sn));
  }

  // ------------------------------------------------ frames

  /** An EAPOL-Key frame, field by field: version 2, type 3, body length; descriptor type 2, key
      information, key length 16, replay counter, nonce; IV, sequence counter and reserved bytes, all
      zero; MIC; length of the key data and the key data. */
  function Wire(info: Octets, replay: Replay, nonce: Nonce, mic: Octets, data: Octets): (f: Octets)
    requires |info| == 2 && |mic| == 16
    ensures |f| == 99 + |data|
  {
    [0x02, 0x03] + PutBe16(95 + |data|)
    + [0x02] + info + [0x00, 0x10] + replay + nonce + seq(32, _ => 0 as Byte) + mic + PutBe16(|data|) + data
  }

  /** The same with its MIC, which is computed with the MIC field zero. */
  function Signed(kck: Octets, info: Octets, replay: Replay, nonce: Nonce, data: Octets): (f: Octets)
    requires |info| == 2
    ensures |f| == 99 + |data|
  {
    hide HmacSha1, Wire;
    Wire(info, replay, nonce, HmacSha1(kck, Wire(info, replay, nonce, seq(16, _ => 0 as Byte), data))[..16], data)
  }

  lemma KeyFrameIsWire(info: nat, replay: Replay, nonce: Nonce, data: Octets)
    ensures KeyFrame(info, replay, nonce, data) == Wire(PutBe16(info), replay, nonce, Zeros(16), data)
    ensures |KeyFrame(info, replay, nonce, data)| == 99 + |data|
  {
    hide PutBe16, ToByte, Value;
    SixteenBytes();
    assert Zeros(48) == seq(32, _ => 0 as Byte) + Zeros(16);
    assert PutBe16(16) == [0x00, 0x10];
  }

  lemma SixteenBytes()
    ensures PutBe16(16) == [0x00, 0x10]
  {
    hide Value, ToByte;
    SmallNumbers();
    Sixteen();
    Letter(0, 0);
    Letter(16, 0x10);
  }

  lemma Sixteen()
    ensures Value(0x10) == 16
  {}

  lemma WireMic(info: Octets, replay: Replay, nonce: Nonce, mic: Octets, data: Octets)
    requires |info| == 2 && |mic| == 16
    ensures var g := Wire(info, replay, nonce, Zeros(16), data);
      |g| == 99 + |data| && g[..81] + mic + g[97..] == Wire(info, replay, nonce, mic, data)
  {
    hide PutBe16;
  }

  lemma SignedIs(kck: Block, info: nat, replay: Replay, nonce: Nonce, data: Octets)
    ensures WithMic(kck, KeyFrame(info, replay, nonce, data)) == Signed(kck, PutBe16(info), replay, nonce, data)
  {
    hide HmacSha1, PutBe16, Wire;
    var g := KeyFrame(info, replay, nonce, data);
    KeyFrameIsWire(info, replay, nonce, data);
    WireMic(PutBe16(info), replay, nonce, Zeros(16), data);
    WireMic(PutBe16(info), replay, nonce, Mic(kck, g), data);
    assert Zeros(16) == seq(16, _ => 0 as Byte);
  }

  lemma InfoBytes()
    ensures PutBe16(0x008a) == [0x00, 0x8a] && PutBe16(0x010a) == [0x01, 0x0a]
    ensures PutBe16(0x030a) == [0x03, 0x0a] && PutBe16(0x13ca) == [0x13, 0xca]
  {
    hide Value, ToByte;
    InfoNumbers();
    Letter(0x008a / 256, 0x00); Letter(0x8a, 0x8a); Letter(0x010a / 256, 0x01); Letter(0x010a % 256, 0x0a);
    Letter(0x030a / 256, 0x03); Letter(0x13ca / 256, 0x13); Letter(0x13ca % 256, 0xca);
    LowByte(0x010a); LowByte(0x030a); LowByte(0x13ca);
  }

  lemma LowByte(n: nat)
    ensures ToByte(n) == ToByte(n % 256)
  {
    hide Value, ToByte;
    ByteValue(n);
    ByteValue(n % 256);
    ValueInjective(ToByte(n), ToByte(n % 256));
  }

  lemma InfoNumbers()
    ensures Value(0x00) == 0 && Value(0x8a) == 0x8a && Value(0x01) == 1 && Value(0x0a) == 10
    ensures Value(0x03) == 3 && Value(0x13) == 0x13 && Value(0xca) == 0xca
  {}

  /** Message 2: pairwise, with MIC, our nonce, and the RSN element of a CCMP and PSK network. */
  lemma Message2Is(kck: Block, replay: Replay, snonce: Nonce)
    ensures Message2(kck, replay, snonce) == Signed(kck, [0x01, 0x0a], replay, snonce,
      [0x30, 0x14, 0x01, 0x00, 0x00, 0x0f, 0xac, 0x04, 0x01, 0x00, 0x00, 0x0f, 0xac, 0x04,
       0x01, 0x00, 0x00, 0x0f, 0xac, 0x02, 0x00, 0x00])
  {
    hide HmacSha1, PutBe16, Wire, WithMic, KeyFrame, Signed;
    InfoBytes();
    SignedIs(kck, 0x010a, replay, snonce, RSN_IE);
  }

  /** Message 4: pairwise, secure, with MIC, no nonce and no key data. */
  lemma Message4Is(kck: Block, replay: Replay)
    ensures Message4(kck, replay) == Signed(kck, [0x03, 0x0a], replay, seq(32, _ => 0 as Byte), [])
  {
    hide HmacSha1, PutBe16, Wire, WithMic, KeyFrame, Signed;
    InfoBytes();
    SignedIs(kck, 0x030a, replay, Zeros(32), []);
    assert Zeros(32) == seq(32, _ => 0 as Byte);
  }

  /** What is read back from a frame. */
  lemma ReadsWire(info: Octets, replay: Replay, nonce: Nonce, mic: Octets, data: Octets, f: Octets)
    requires |info| == 2 && |mic| == 16 && |data| < 0x10000 && f == Wire(info, replay, nonce, mic, data)
    ensures |f| == 99 + |data| && f[5..7] == info && ReplayOf(f) == replay && NonceOf(f) == nonce && f[81..97] == mic
    ensures KeyDataLen(f) == |data| && f[99..99 + |data|] == data
  {
    hide Value, PutBe16;
    PutBe16Value(|data|);
    WireParts(info, replay, nonce, mic, data, f);
    assert f[97] == f[97..99][0] && f[98] == f[97..99][1];
  }

  lemma WireParts(info: Octets, replay: Replay, nonce: Nonce, mic: Octets, data: Octets, f: Octets)
    requires |info| == 2 && |mic| == 16 && f == Wire(info, replay, nonce, mic, data)
    ensures |f| == 99 + |data| && f[5..7] == info && f[9..17] == replay && f[17..49] == nonce && f[81..97] == mic
    ensures f[97..99] == PutBe16(|data|) && f[99..99 + |data|] == data
  {
    hide PutBe16;
  }

  // ------------------------------------------------ key information bits

  /** Bit 8 of the key information says that there is a MIC, bit 3 that the key is a pairwise one. */
  lemma InfoBits(f: Frame)
    ensures HasMic(f) <==> Be16(f, 5) / 256 % 2 == 1
    ensures Pairwise(f) <==> Be16(f, 5) / 8 % 2 == 1
  {
    hide Value;
    var hi, lo := Value(f[5]), Value(f[6]);
    assert (256 * hi + lo) / 256 == hi;
    assert (256 * hi + lo) / 8 == 32 * hi + lo / 8;
    assert (32 * hi + lo / 8) % 2 == lo / 8 % 2;
    Bit0(f[5]);
    Bit3(f[6]);
  }

  lemma Bit0(b: Byte)
    ensures b & 0x01 != 0 <==> Value(b) % 2 == 1
  {}

  lemma Bit3(b: Byte)
    ensures b & 0x08 != 0 <==> Value(b) / 8 % 2 == 1
  {
    hide Sum;
    SumBit3(b & 1 != 0, b & 2 != 0, b & 4 != 0, b & 8 != 0, b & 16 != 0, b & 32 != 0, b & 64 != 0, b & 128 != 0);
  }

  lemma SumBit3(b0: bool, b1: bool, b2: bool, b3: bool, b4: bool, b5: bool, b6: bool, b7: bool)
    ensures Sum(b0, b1, b2, b3, b4, b5, b6, b7) / 8 % 2 == Weight(b3, 1)
  {
    var low, high := Weight(b0, 1) + Weight(b1, 2) + Weight(b2, 4), Weight(b4, 1) + Weight(b5, 2) + Weight(b6, 4) + Weight(b7, 8);
    SumEights(b0, b1, b2, b3, b4, b5, b6, b7);
    hide Sum, Weight;
    Split8(low, Weight(b3, 1), high);
    ABit(b3);
  }

  lemma SumEights(b0: bool, b1: bool, b2: bool, b3: bool, b4: bool, b5: bool, b6: bool, b7: bool)
    ensures var low, high := Weight(b0, 1) + Weight(b1, 2) + Weight(b2, 4), Weight(b4, 1) + Weight(b5, 2) + Weight(b6, 4) + Weight(b7, 8);
      low < 8 && Sum(b0, b1, b2, b3, b4, b5, b6, b7) == low + 8 * (Weight(b3, 1) + 2 * high)
  {}

  lemma ABit(b: bool)
    ensures Weight(b, 1) < 2
  {}

  lemma Split8(low: nat, bit: nat, high: nat)
    ensures low < 8 && bit < 2 ==> (low + 8 * (bit + 2 * high)) / 8 % 2 == bit
  {
    if low < 8 && bit < 2 { assert (low + 8 * (bit + 2 * high)) / 8 == bit + 2 * high; }
  }

  // ------------------------------------------------ what is answered, and with which counter

  /** A frame without the MIC bit is message 1 again: it is answered under its own replay counter. */
  lemma RepeatAnswered(rx: seq<Rx>, kck: Block, snonce: Nonce, q: nat, f: Frame)
    requires q > 0 && At(rx, q) == Got(f)
    ensures Answers(rx, kck, snonce, q + 1) ==
      Answers(rx, kck, snonce, q) + if Be16(f, 5) / 256 % 2 == 1 then [] else [Message2(kck, f[9..17], snonce)]
  {
    hide Message2, Be16, HasMic;
    InfoBits(f);
  }

  /** A silence is answered by message 2 again, under the counter of the latest message 1, which is at k. */
  lemma SilenceAnswered(rx: seq<Rx>, kck: Block, snonce: Nonce, k: nat, q: nat, f: Frame)
    requires k < q && At(rx, k) == Got(f) && (k == 0 || Be16(f, 5) / 256 % 2 == 0) && At(rx, q).Silence?
    requires forall i :: k < i < q && At(rx, i).Got? ==> Be16(At(rx, i).frame, 5) / 256 % 2 == 1
    ensures Answers(rx, kck, snonce, q + 1) == Answers(rx, kck, snonce, q) + [Message2(kck, f[9..17], snonce)]
  {
    hide Message2, Be16, ReplayOf;
    LatestCounter(rx, k, q, f);
    CounterReplay(f);
  }

  lemma CounterReplay(f: Frame)
    ensures ReplayOf(f) == f[9..17]
  {}

  lemma {:induction false} LatestCounter(rx: seq<Rx>, k: nat, q: nat, f: Frame)
    requires k < q && At(rx, k) == Got(f) && (k == 0 || Be16(f, 5) / 256 % 2 == 0)
    requires forall i :: k < i < q && At(rx, i).Got? ==> Be16(At(rx, i).frame, 5) / 256 % 2 == 1
    ensures Counter(rx, q) == ReplayOf(f)
  {
    hide Be16, ReplayOf, HasMic;
    match At(rx, q - 1)
    case Got(g) => InfoBits(g); if q - 1 > k { LatestCounter(rx, k, q - 1, f); }
    case Silence => LatestCounter(rx, k, q - 1, f);
  }

  /** After success, a frame without the pairwise bit is passed over. */
  lemma GroupFramePassedOver(rx: seq<Rx>, kck: Block, q: nat, n: nat, f: Frame)
    requires n > 0 && At(rx, q) == Got(f) && Be16(f, 5) / 8 % 2 == 0
    ensures Repeats(rx, kck, q, n) == Repeats(rx, kck, q + 1, n - 1)
  {
    hide Message4, Be16, Verified, Pairwise;
    InfoBits(f);
  }
}
