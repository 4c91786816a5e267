/** What an authenticator that follows the standard sends is accepted: message 3 built from
    the authenticator's side of the key derivation carries its group key to us. */
module Interop {
  import opened Bytes
  import opened Hmac
  import opened Aes
  import opened KeyWrap
  import opened Options
  import opened Eapol
  import opened Handshake
  import opened EapolWire

  /** An element of the key data other than the group key. */
  datatype Element = Element(id: Byte, data: Octets)

  ghost predicate Plain(e: Element) {
    && e.id != 0 && |e.data| < 256
    && !(e.id == 0xdd && |e.data| >= 6 && e.data[..3] == [0x00, 0x0f, 0xac] && e.data[3] == 0x01)
  }

  function ElementBytes(e: Element): Octets { [e.id, ToByte(|e.data|)] + e.data }

  function AllBytes(es: seq<Element>): Octets {
    if es == [] then [] else ElementBytes(es[0]) + AllBytes(es[1..])
  }

  function GtkKde(g: Gtk): Octets {
    [0xdd, ToByte(6 + |g.key|), 0x00, 0x0f, 0xac, 0x01, ToByte(g.keyidx), 0x00] + g.key
  }

  function KeyData(es: seq<Element>, g: Gtk, padding: Octets): Octets { AllBytes(es) + GtkKde(g) + padding }

  /** Pairwise, install, acknowledge, with MIC, secure and encrypted key data: signed with the
      confirmation key, the key data wrapped under the encryption key. */
  function Message3(keys: Keys, replay: Replay, anonce: Nonce, data: Octets): Octets
    requires |data| % 8 == 0
  {
    hide Wrap, Signed;
    Signed(keys.confirm, [0x13, 0xca], replay, anonce, Wrap(keys.encrypt, data))
  }

  lemma SmallValues()
    ensures Value(0) == 0 && Value(1) == 1 && Value(2) == 2 && Value(3) == 3
  {}

  lemma KeepsLowBits(b: Byte)
    requires b == 0 || b == 1 || b == 2 || b == 3
    ensures b & 0x03 == b
  {}

  lemma LowTwoBits(n: nat)
    requires n < 4
    ensures Value(ToByte(n) & 0x03) == n
  {
    hide Value, ToByte;
    SmallValues();
    ByteValue(n);
    var b := ToByte(n);
    if n == 0 { ValueInjective(b, 0); }
    else if n == 1 { ValueInjective(b, 1); }
    else if n == 2 { ValueInjective(b, 2); }
    else { ValueInjective(b, 3); }
    KeepsLowBits(b);
  }

  /** The group key that is used of an element: at most 32 bytes. */
  function Used(g: Gtk): Gtk { if |g.key| <= 32 then g else Gtk(g.keyidx, g.key[..32]) }

  lemma FindGtkHere(kd: Octets, i: nat, g: Gtk, padding: Octets)
    requires |g.key| <= 249 && g.keyidx < 4
    requires i <= |kd| && kd[i..] == GtkKde(g) + padding
    ensures FindGtk(kd, i) == Some(Used(g))
  {
    hide Value, ToByte;
    ByteValue(6 + |g.key|);
    LowTwoBits(g.keyidx);
    KdeAt(kd, i, g, padding);
    assert IsGtkKde(kd, i);
    if |g.key| > 32 { assert kd[i + 8..i + 8 + |g.key|][..32] == kd[i + 8..i + 40]; }
  }

  /** Where the parts of the group key element lie. */
  lemma KdeAt(kd: Octets, i: nat, g: Gtk, padding: Octets)
    requires i <= |kd| && kd[i..] == GtkKde(g) + padding
    ensures i + 8 + |g.key| <= |kd| && kd[i] == 0xdd && kd[i + 1] == ToByte(6 + |g.key|)
    ensures kd[i + 2..i + 5] == GTK_OUI && kd[i + 5] == 0x01 && kd[i + 6] == ToByte(g.keyidx)
    ensures kd[i + 8..i + 8 + |g.key|] == g.key
  {
    hide ToByte;
    var rest := kd[i..];
    assert rest[0] == kd[i] && rest[1] == kd[i + 1] && rest[5] == kd[i + 5] && rest[6] == kd[i + 6];
    assert kd[i + 2..i + 5] == rest[2..5];
    assert kd[i + 8..i + 8 + |g.key|] == rest[8..8 + |g.key|];
  }

  lemma FindGtkNext(kd: Octets, i: nat, e: Element, next: Octets)
    requires Plain(e) && i <= |kd| && kd[i..] == ElementBytes(e) + next
    ensures i + 2 + |e.data| <= |kd| && kd[i + 2 + |e.data|..] == next && FindGtk(kd, i) == FindGtk(kd, i + 2 + |e.data|)
  {
    hide Value, ToByte, IsGtkKde;
    ByteValue(|e.data|);
    ElementAt(kd, i, e, next);
    PlainIsNoKde(kd, i, e);
  }

  lemma PlainIsNoKde(kd: Octets, i: nat, e: Element)
    requires Plain(e) && i + 2 + |e.data| <= |kd| && kd[i] == e.id && Value(kd[i + 1]) == |e.data|
    requires |e.data| >= 6 ==> kd[i + 2..i + 5] == e.data[..3] && kd[i + 5] == e.data[3]
    ensures !IsGtkKde(kd, i)
  {
    hide Value;
  }

  /** Where the parts of an element lie. */
  lemma ElementAt(kd: Octets, i: nat, e: Element, next: Octets)
    requires i <= |kd| && kd[i..] == ElementBytes(e) + next
    ensures i + 2 + |e.data| <= |kd| && kd[i] == e.id && kd[i + 1] == ToByte(|e.data|)
    ensures kd[i + 2 + |e.data|..] == next
    ensures |e.data| >= 6 ==> kd[i + 2..i + 5] == e.data[..3] && kd[i + 5] == e.data[3]
  {
    hide ToByte;
    var rest := kd[i..];
    assert rest[0] == kd[i] && rest[1] == kd[i + 1];
    assert rest[2 + |e.data|..] == next && kd[i + 2 + |e.data|..] == rest[2 + |e.data|..];
    assert rest[2..2 + |e.data|] == e.data == kd[i + 2..i + 2 + |e.data|];
    if |e.data| >= 6 {
      assert kd[i + 2..i + 2 + |e.data|][..3] == kd[i + 2..i + 5];
      assert kd[i + 2..i + 2 + |e.data|][3] == kd[i + 5];
    }
  }

  /** The scan ends without a key at an element of type 0 and at an element that is cut off. */
  lemma FindGtkEnds(kd: Octets, i: nat)
    requires i + 2 <= |kd| && (kd[i] == 0 || i + 2 + Value(kd[i + 1]) > |kd|)
    ensures FindGtk(kd, i) == None
  {
    hide Value;
  }

  /** Scanning skips every element that is not the group key. */
  lemma {:induction false} FindGtkSkips(kd: Octets, i: nat, es: seq<Element>, g: Gtk, padding: Octets)
    requires forall k :: 0 <= k < |es| ==> Plain(es[k])
    requires |g.key| <= 249 && g.keyidx < 4
    requires i <= |kd| && kd[i..] == KeyData(es, g, padding)
    ensures FindGtk(kd, i) == Some(Used(g))
    decreases |es|
  {
    hide FindGtk, ElementBytes, GtkKde, Plain;
    if es == [] {
      assert kd[i..] == GtkKde(g) + padding;
      FindGtkHere(kd, i, g, padding);
    } else {
      var next := KeyData(es[1..], g, padding);
      assert kd[i..] == ElementBytes(es[0]) + next;
      FindGtkNext(kd, i, es[0], next);
      FindGtkSkips(kd, i + 2 + |es[0].data|, es[1..], g, padding);
    }
  }

  lemma M3HasMic()
    ensures (0x13 as Byte) & 0x01 != 0
  {}

  /** The supplicant reads the fields of a signed frame, and its MIC verifies. */
  lemma SignedVerifies(kck: Block, info: nat, replay: Replay, nonce: Nonce, c: Octets)
    requires |c| < 0x10000
    ensures var f := Signed(kck, PutBe16(info), replay, nonce, c);
      MicOk(kck, f) && f[5..7] == PutBe16(info) && KeyDataLen(f) == |c| && f[99..99 + |c|] == c
  {
    hide HmacSha1, MicOk, Wire, WithMic, KeyFrame, PutBe16, KeyDataLen, ReplayOf, NonceOf;
    SignedIs(kck, info, replay, nonce, c);
    KeyFrameIsWire(info, replay, nonce, c);
    WithMicVerifies(kck, KeyFrame(info, replay, nonce, c));
    var mic := HmacSha1(kck, Wire(PutBe16(info), replay, nonce, seq(16, _ => 0 as Byte), c))[..16];
    ReadsWire(PutBe16(info), replay, nonce, mic, c, Wire(PutBe16(info), replay, nonce, mic, c));
  }

  lemma Message3Verifies(keys: Keys, replay: Replay, anonce: Nonce, data: Octets)
    requires |data| % 8 == 0 && data != [] && |data| < 0xfff0
    ensures var f := Message3(keys, replay, anonce, data);
      |f| == 107 + |data| && MicOk(keys.confirm, f) && f[5] == 0x13
      && KeyDataLen(f) == |data| + 8 && Unwrap(keys.encrypt, f[99..107 + |data|]) == Some(data)
  {
    hide MicOk, Unwrap, Wrap, Signed, KeyDataLen, PutBe16;
    var c := Wrap(keys.encrypt, data);
    UnwrapWrap(keys.encrypt, data);
    WrapUnwrap(keys.encrypt, c);
    InfoBytes();
    SignedVerifies(keys.confirm, 0x13ca, replay, anonce, c);
    var f := Message3(keys, replay, anonce, data);
    assert f[5] == f[5..7][0];
  }

  /** Key data an authenticator can send: plain elements, a group key of 16 to 32 bytes, and
      padding to whole blocks. */
  ghost predicate Sendable(es: seq<Element>, g: Gtk, padding: Octets)
    ensures Sendable(es, g, padding) ==> |KeyData(es, g, padding)| % 8 == 0
  {
    && (forall k :: 0 <= k < |es| ==> Plain(es[k]))
    && 16 <= |g.key| <= 32 && g.keyidx < 4
    && |KeyData(es, g, padding)| % 8 == 0 && |KeyData(es, g, padding)| <= 248
  }

  /** Message 3 under a key verifies under that key and yields the group key in it. */
  lemma Message3Carries(keys: Keys, replay: Replay, anonce: Nonce, es: seq<Element>, g: Gtk, padding: Octets)
    requires Sendable(es, g, padding)
    ensures var f := Message3(keys, replay, anonce, KeyData(es, g, padding));
      && 99 <= |f| <= 512 && Verified(keys.confirm, Got(f)) && GtkOf(keys.encrypt, f) == Some(g)
  {
    hide MicOk, FindGtk, Unwrap, Message3, Plain, KeyData, KeyDataLen;
    var data := KeyData(es, g, padding);
    DataNonEmpty(es, g, padding);
    Message3Verifies(keys, replay, anonce, data);
    assert data[0..] == data;
    FindGtkSkips(data, 0, es, g, padding);
    M3HasMic();
  }

  lemma DataNonEmpty(es: seq<Element>, g: Gtk, padding: Octets)
    ensures |KeyData(es, g, padding)| >= 8
  {}

  /** The authenticator derives its keys from its own point of view, wraps any key data that
      holds its group key, and sends it with its MIC: the supplicant verifies the frame and
      finds exactly that group key in it. */
  lemma Message3Accepted(pmk: Octets, aa: Mac, spa: Mac, anonce: Nonce, snonce: Nonce,
      replay: Replay, es: seq<Element>, g: Gtk, padding: Octets)
    requires Sendable(es, g, padding)
    ensures var ours := DerivePtk(pmk, aa, spa, anonce, snonce);
      var theirs := StandardKeys(pmk, spa, aa, snonce, anonce);
      var f := Message3(theirs, replay, anonce, KeyData(es, g, padding));
      && 99 <= |f| <= 512 && Verified(Kck(ours), Got(f)) && GtkOf(Kek(ours), f) == Some(g)
  {
    hide DerivePtk, StandardKeys, Message3, Verified, GtkOf, Sendable, KeyData, Kck, Kek;
    PtkSymmetric(pmk, aa, spa, anonce, snonce);
    PtkParts(pmk, spa, aa, snonce, anonce);
    Message3Carries(StandardKeys(pmk, spa, aa, snonce, anonce), replay, anonce, es, g, padding);
  }

  /** The keys the authenticator derives, from its own side of the exchange; the salt is the network's
      name, of which the supplicant uses at most 64 bytes. */
  ghost function TheirKeys(pass: Octets, ssid: Octets, bssid: Mac, sa: Mac, anonce: Nonce, snonce: Nonce): Keys {
    StandardKeys(Pbkdf2(pass, if |ssid| <= 64 then ssid else ssid[..64], 4096, 32), sa, bssid, snonce, anonce)
  }

  /** A reception that leads to success: message 1 first, and at p, within the budget and with
      nothing verified before it, the authenticator's message 3. */
  ghost predicate Succeeds(rx: seq<Rx>, p: nat, m1: Frame, m3: Frame, k: Block) {
    && At(rx, 0) == Got(m1) && At(rx, p) == Got(m3)
    && 1 <= p <= 30 && Silences(rx, 1, p) < 8 && forall q :: 1 <= q < p ==> !Verified(k, At(rx, q))
  }

  lemma Message3Decides(rx: seq<Rx>, p: nat, m1: Frame, m3: Frame, keys: Keys,
      replay: Replay, anonce: Nonce, es: seq<Element>, g: Gtk, padding: Octets)
    requires Sendable(es, g, padding)
    requires m3 == Message3(keys, replay, anonce, KeyData(es, g, padding)) && Succeeds(rx, p, m1, m3, keys.confirm)
    ensures Decides(rx, keys.confirm, p) && GtkOf(keys.encrypt, m3) == Some(g)
  {
    hide Message3, Verified, GtkOf, Sendable, KeyData, Silences;
    Message3Carries(keys, replay, anonce, es, g, padding);
  }

  lemma SameSession(pass: Octets, ssid: Octets, bssid: Mac, sa: Mac, m1: Frame, snonce: Nonce)
    ensures var p := SessionPtk(pass, ssid, bssid, sa, m1, snonce);
      TheirKeys(pass, ssid, bssid, sa, m1[17..49], snonce) == Keys(Kck(p), Kek(p), Tk(p))
  {
    hide Pbkdf2, DerivePtk, StandardKeys, Kck, Kek, Tk;
    var pmk := Pbkdf2(pass, Capped(ssid), 4096, 32);
    PtkSymmetric(pmk, bssid, sa, m1[17..49], snonce);
    PtkParts(pmk, sa, bssid, snonce, m1[17..49]);
  }

  /** The two sides together: the supplicant that hears such a reception installs exactly the
      authenticator's temporal key and group key. */
  method Join(rx: seq<Rx>, p: nat, m1: Frame, m3: Frame, pass: Octets, ssid: Octets, bssid: Mac, sa: Mac, snonce: Nonce,
      ghost replay: Replay, ghost es: seq<Element>, ghost g: Gtk, ghost padding: Octets)
    returns (rc: int, s: Supplicant)
    requires |pass| < MAX_MESSAGE && Sendable(es, g, padding)
    requires var theirs := TheirKeys(pass, ssid, bssid, sa, m1[17..49], snonce);
      && m3 == Message3(theirs, replay, m1[17..49], KeyData(es, g, padding))
      && Succeeds(rx, p, m1, m3, theirs.confirm)
    ensures rc == 0 && s.Wiped()
    ensures s.installs == [Install(TheirKeys(pass, ssid, bssid, sa, m1[17..49], snonce).temporal, g)]
  {
    hide TheirKeys, SessionPtk, Message3, Verified, GtkOf, Sendable, KeyData, Kck, Kek, Tk, Silences, Decides, Answers, Confirmation;
    ghost var keys := TheirKeys(pass, ssid, bssid, sa, m1[17..49], snonce);
    SameSession(pass, ssid, bssid, sa, m1, snonce);
    Message3Decides(rx, p, m1, m3, keys, replay, m1[17..49], es, g, padding);
    s := new Supplicant(rx);
    rc := s.Run(bssid, sa, ssid, pass, snonce);
  }
}
