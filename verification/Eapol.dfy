/** EAPOL-Key frames of the 4-way handshake (section 12.7.6 of IEEE Std 802.11-2020): key
    derivation, message integrity and the group key in the third message. */
module Eapol {
  import opened Bytes
  import opened Sha1
  import opened Hmac
  import opened Aes
  import opened AesArrays
  import opened KeyWrap
  import opened Options

  type Nonce = n: Octets | |n| == 32 witness seq(32, _ => 0)

  // ------------------------------------------------ pairwise key

  /** memcmp(a, b) < 0 */
  predicate Less(a: Octets, b: Octets)
    requires |a| == |b|
  {
    a != [] && (a[0] < b[0] || (a[0] == b[0] && Less(a[1..], b[1..])))
  }

  function MinMax(a: Octets, b: Octets): Octets
    requires |a| == |b|
  {
    if Less(a, b) then a + b else b + a
  }

  /** "Pairwise key expansion" */
  const PTK_LABEL: Octets :=
    [0x50, 0x61, 0x69, 0x72, 0x77, 0x69, 0x73, 0x65, 0x20, 0x6b, 0x65,
     0x79, 0x20, 0x65, 0x78, 0x70, 0x61, 0x6e, 0x73, 0x69, 0x6f, 0x6e]

  /** KCK, KEK and TK, 16 bytes each. */
  type Ptk = p: Octets | |p| == 48 witness seq(48, _ => 0)

  function DerivePtk(pmk: Octets, aa: Mac, spa: Mac, anonce: Nonce, snonce: Nonce): Ptk {
    Prf(pmk, PTK_LABEL, MinMax(aa, spa) + MinMax(anonce, snonce), 48)
  }

  function Kck(p: Ptk): Block { p[..16] }
  function Kek(p: Ptk): Block { p[16..32] }
  function Tk(p: Ptk): Block { p[32..] }

  lemma {:induction false} LessTotal(a: Octets, b: Octets)
    requires |a| == |b|
    ensures Less(a, b) && Less(b, a) ==> false
    ensures a != b ==> Less(a, b) || Less(b, a)
  {
    if a != [] {
      LessTotal(a[1..], b[1..]);
      assert a == [a[0]] + a[1..] && b == [b[0]] + b[1..];
    }
  }

  lemma MinMaxSymmetric(a: Octets, b: Octets)
    requires |a| == |b|
    ensures MinMax(a, b) == MinMax(b, a)
  {
    LessTotal(a, b);
  }

  /** Both ends derive the same key, whichever of them names itself first. */
  lemma PtkSymmetric(pmk: Octets, aa: Mac, spa: Mac, anonce: Nonce, snonce: Nonce)
    ensures DerivePtk(pmk, aa, spa, anonce, snonce) == DerivePtk(pmk, spa, aa, snonce, anonce)
  {
    hide Prf, MinMax;
    MinMaxSymmetric(aa, spa);
    MinMaxSymmetric(anonce, snonce);
  }

  // ------------------------------------------------ message integrity

  /** A received EAPOL-Key frame is long enough for all fixed fields. */
  type Frame = f: Octets | 99 <= |f| <= 512 witness seq(99, _ => 0)

  function Blanked(f: Octets): Octets
    requires |f| >= 97
  {
    f[..81] + Zeros(16) + f[97..]
  }

  function Mic(kck: Block, f: Octets): (m: Octets)
    requires |f| >= 97
    ensures |m| == 16
  {
    HmacSha1(kck, Blanked(f))[..16]
  }

  predicate MicOk(kck: Block, f: Octets)
    requires |f| >= 97
  {
    f[81..97] == Mic(kck, f)
  }

  function WithMic(kck: Block, f: Octets): (g: Octets)
    requires |f| >= 97
    ensures |g| == |f|
  {
    f[..81] + Mic(kck, f) + f[97..]
  }

  /** A frame that is given its MIC verifies. */
  lemma WithMicVerifies(kck: Block, f: Octets)
    requires |f| >= 97
    ensures MicOk(kck, WithMic(kck, f))
  {
    hide HmacSha1;
    var g := WithMic(kck, f);
    assert g[81..97] == Mic(kck, f);
    assert g[..81] == f[..81] && g[97..] == f[97..];
    assert Blanked(g) == Blanked(f);
  }

  /** Compute the MIC over the frame with its MIC field blanked in place, then restore it. */
  method EapolMic(kck: Block, eapol: array<Byte>, elen: nat) returns (mic: Octets)
    requires 97 <= elen <= eapol.Length && elen < MAX_MESSAGE
    modifies eapol
    ensures eapol[..] == old(eapol[..]) && mic == Mic(kck, eapol[..elen])
  {
    hide HmacSha1;
    var save := eapol[81..97];
    forall k | 81 <= k < 97 { eapol[k] := 0; }
    assert eapol[..elen] == Blanked(old(eapol[..elen]));
    var digest := new Byte[20];
    HmacInto(kck, eapol, elen, digest);
    assert digest[..] == digest[..20];
    mic := digest[..16];
    forall k | 81 <= k < 97 { eapol[k] := save[k - 81]; }
    assert eapol[..] == old(eapol[..]);
  }

  const RSN_IE: Octets :=
    [48, 20, 0x01, 0x00, 0x00, 0x0f, 0xac, 0x04, 0x01, 0x00,
     0x00, 0x0f, 0xac, 0x04, 0x01, 0x00, 0x00, 0x0f, 0xac, 0x02, 0x00, 0x00]

  type Replay = r: Octets | |r| == 8 witness seq(8, _ => 0)

  /** EAPOL version 2, type Key, body length. */
  function Head(datalen: nat): (s: Octets)
    ensures |s| == 4
  {
    [0x02, 0x03] + PutBe16(95 + datalen)
  }

  /** RSN descriptor, key information, key length 16, replay counter. */
  function Descriptor(info: nat, replay: Replay): (s: Octets)
    ensures |s| == 13 && s[5..] == replay
  {
    [0x02] + PutBe16(info) + PutBe16(16) + replay
  }

  /** The frame without its MIC: header, descriptor, nonce, zero IV/RSC/reserved/MIC, key data. */
  function KeyFrame(info: nat, replay: Replay, nonce: Nonce, data: Octets): (f: Octets)
    ensures |f| == 99 + |data|
  {
    Head(|data|) + Descriptor(info, replay) + nonce + Zeros(48) + PutBe16(|data|) + data
  }

  /** Message 2 carries our nonce and RSN element, message 4 neither. */
  function Message2(kck: Block, replay: Replay, snonce: Nonce): Octets {
    WithMic(kck, KeyFrame(0x010a, replay, snonce, RSN_IE))
  }

  function Message4(kck: Block, replay: Replay): Octets {
    WithMic(kck, KeyFrame(0x030a, replay, Zeros(32), []))
  }

  function ReplayOf(f: Octets): Replay
    requires |f| >= 99
  {
    f[9..17]
  }

  function NonceOf(f: Octets): Nonce
    requires |f| >= 99
  {
    f[17..49]
  }

  lemma KeyFrameFields(kck: Block, info: nat, replay: Replay, nonce: Nonce, data: Octets)
    ensures var f := WithMic(kck, KeyFrame(info, replay, nonce, data));
      MicOk(kck, f) && ReplayOf(f) == replay && NonceOf(f) == nonce
  {
    hide Mic, PutBe16, Head, Descriptor;
    var g := KeyFrame(info, replay, nonce, data);
    WithMicVerifies(kck, g);
    assert g[4..17] == Descriptor(info, replay) && g[17..49] == nonce;
    assert g[9..17] == g[4..17][5..];
  }

  method CopyAt(a: array<Byte>, off: nat, src: Octets)
    requires off + |src| <= a.Length
    modifies a
    ensures a[..] == old(a[..off]) + src + old(a[off + |src|..])
  {
    forall k | 0 <= k < |src| { a[off + k] := src[k]; }
  }

  /** Fill in everything but the MIC. */
  method FillFields(eapol: array<Byte>, info: nat, replay: Replay, snonce: Option<Nonce>, data: Octets)
    requires eapol.Length >= 99 + |data|
    modifies eapol
    ensures eapol[..99 + |data|] ==
      KeyFrame(info, replay, if snonce.Some? then snonce.value else Zeros(32), data)
  {
    hide PutBe16, Head, Descriptor;
    CopyAt(eapol, 0, Head(|data|));
    CopyAt(eapol, 4, Zeros(95));
    CopyAt(eapol, 4, Descriptor(info, replay));
    assert eapol[..99] == Head(|data|) + Descriptor(info, replay) + Zeros(82);
    FillRest(eapol, snonce, data, Head(|data|) + Descriptor(info, replay));
  }

  method FillRest(eapol: array<Byte>, snonce: Option<Nonce>, data: Octets, ghost front: Octets)
    requires eapol.Length >= 99 + |data| && |front| == 17 && eapol[..99] == front + Zeros(82)
    modifies eapol
    ensures eapol[..99 + |data|] ==
      front + (if snonce.Some? then snonce.value else Zeros(32)) + Zeros(48) + PutBe16(|data|) + data
  {
    hide PutBe16;
    ghost var nonce: Nonce := if snonce.Some? then snonce.value else Zeros(32);
    if snonce.Some? { CopyAt(eapol, 17, snonce.value); }
    assert eapol[..97] == front + nonce + Zeros(48);
    CopyAt(eapol, 97, PutBe16(|data|));
    CopyAt(eapol, 99, data);
    assert eapol[..97] == front + nonce + Zeros(48);
    assert eapol[97..99 + |data|] == PutBe16(|data|) + data;
  }

  /** Build message 2 or 4 in a buffer and fill in its MIC. */
  method BuildEapolKey(eapol: array<Byte>, info: nat, replay: Replay, snonce: Option<Nonce>, kck: Block, rsn: bool)
    returns (elen: nat)
    requires eapol.Length >= 121 && eapol.Length < MAX_MESSAGE
    modifies eapol
    ensures var data, nonce := (if rsn then RSN_IE else []), (if snonce.Some? then snonce.value else Zeros(32));
      && elen == 99 + |data|
      && eapol[..elen] == WithMic(kck, KeyFrame(info, replay, nonce, data))
  {
    hide KeyFrame, Mic;
    var data := if rsn then RSN_IE else [];
    elen := 99 + |data|;
    FillFields(eapol, info, replay, snonce, data);
    ghost var g := eapol[..elen];
    var mic := EapolMic(kck, eapol, elen);
    ghost var whole := eapol[..];
    assert eapol[81 + |mic|..] == whole[97..] && whole[..elen] == g;
    CopyAt(eapol, 81, mic);
    Splice(eapol[..], whole, g, mic);
  }

  /** Replacing the MIC field of a buffer replaces that of the frame at its start. */
  lemma Splice(after: Octets, before: Octets, g: Octets, mic: Octets)
    requires 97 <= |g| <= |before| && before[..|g|] == g && |mic| == 16
    requires after == before[..81] + mic + before[97..]
    ensures |after| == |before| && after[..|g|] == g[..81] + mic + g[97..]
  {
    assert before[..81] == g[..81];
    assert after[97..] == before[97..];
    assert after[97..][..|g| - 97] == after[97..|g|] && before[97..][..|g| - 97] == before[97..|g|] == g[97..];
  }

  // ------------------------------------------------ the group key in message 3

  datatype Gtk = Gtk(keyidx: nat, key: Octets)

  const GTK_OUI: Octets := [0x00, 0x0f, 0xac]

  /** A GTK KDE at position `i`: vendor element, OUI 00-0F-AC, data type 1. */
  predicate IsGtkKde(kd: Octets, i: nat)
    requires i + 2 <= |kd| && i + 2 + Value(kd[i + 1]) <= |kd|
  {
    kd[i] == 0xdd && Value(kd[i + 1]) >= 6 && kd[i + 2..i + 5] == GTK_OUI && kd[i + 5] == 0x01
  }

  /** The first GTK KDE from position `i` on; at most 32 key bytes are used. */
  function FindGtk(kd: Octets, i: nat): Option<Gtk>
    decreases |kd| - i
  {
    if i + 2 > |kd| || i + 2 + Value(kd[i + 1]) > |kd| then None
    else
      var dlen := Value(kd[i + 1]);
      if IsGtkKde(kd, i) then
        var glen := if dlen - 6 > 32 then 32 else dlen - 6;
        Some(Gtk(Value(kd[i + 6] & 0x03), kd[i + 8..i + 8 + glen]))
      else if kd[i] == 0 then None
      else FindGtk(kd, i + 2 + dlen)
  }

  /** The scan over the unwrapped key data, every read inside it. */
  method ParseGtkKde(kd: Octets) returns (r: Option<Gtk>)
    ensures r == FindGtk(kd, 0)
  {
    hide Value;
    var i := 0;
    while i + 2 <= |kd|
      invariant FindGtk(kd, i) == FindGtk(kd, 0)
      decreases |kd| - i
    {
      var dlen := Value(kd[i + 1]);
      if i + 2 + dlen > |kd| { break; }
      if kd[i] == 0xdd && dlen >= 6 && kd[i + 2..i + 5] == GTK_OUI && kd[i + 5] == 0x01 {
        var glen := dlen - 6;
        if glen > 32 { glen := 32; }
        return Some(Gtk(Value(kd[i + 6] & 0x03), kd[i + 8..i + 8 + glen]));
      }
      if kd[i] == 0 { break; }
      i := i + 2 + dlen;
    }
    return None;
  }

  function KeyDataLen(f: Octets): nat
    requires |f| >= 99
  {
    Be16(f, 97)
  }

  /** The usable group key of a frame, if it carries one. */
  function GtkOf(kek: Block, f: Octets): Option<Gtk>
    requires |f| >= 99
  {
    var n := KeyDataLen(f);
    if n < 16 || n > 256 || n % 8 != 0 || 99 + n > |f| then None
    else
      match Unwrap(kek, f[99..99 + n])
      case None => None
      case Some(plain) =>
        match FindGtk(plain, 0)
        case None => None
        case Some(g) => if |g.key| >= 16 then Some(g) else None
  }

  method ExtractGtk(tables: Tables, kek: Block, eapol: array<Byte>, elen: nat) returns (r: Option<Gtk>)
    requires tables.Valid() && 99 <= elen <= eapol.Length
    modifies tables, tables.rsbox
    ensures tables.Valid() && r == GtkOf(kek, old(eapol[..elen]))
  {
    hide Unwrap, FindGtk, Be16;
    var f := eapol[..elen];
    var n := Be16(f, 97);
    if n < 16 || n > 256 || n % 8 != 0 { return None; }
    if 99 + n > elen { return None; }
    var plain := new Byte[256];
    var plen := AesUnwrap(tables, kek, f[99..99 + n], plain);
    if plen == 0 {
      PlainNonEmpty(kek, f[99..99 + n]);
      return None;
    }
    assert plain[..plen] == Unwrap(kek, f[99..99 + n]).value;
    var g := ParseGtkKde(plain[..plen]);
    if g.Some? && |g.value.key| >= 16 { return g; }
    return None;
  }

  lemma PlainNonEmpty(kek: Block, c: Octets)
    ensures Unwrap(kek, c).Some? ==> |Unwrap(kek, c).value| >= 8
  {
    hide UnwrapRounds;
    if Unwrap(kek, c).Some? { WrapUnwrap(kek, c); }
  }
}
