/** The supplicant side of the WPA2 4-way handshake over arbitrary received frames. */
module Handshake {
  import opened Bytes
  import opened Sha1
  import opened Hmac
  import opened Aes
  import opened AesArrays
  import opened KeyWrap
  import opened Options
  import opened Eapol

  /** What one receive attempt yields: nothing within its time, or an EAPOL-Key frame. */
  datatype Rx = Silence | Got(frame: Frame)

  /** Keys written to the hardware. */
  datatype Install = Install(tk: Octets, gtk: Gtk)

  function At(rx: seq<Rx>, i: nat): Rx { if i < |rx| then rx[i] else Silence }

  predicate HasMic(f: Frame) { f[5] & 0x01 != 0 }
  predicate Pairwise(f: Frame) { f[6] & 0x08 != 0 }

  /** The pairwise key agreed with the sender of message 1. */
  function SessionPtk(pass: Octets, ssid: Octets, bssid: Mac, sa: Mac, m1: Frame, snonce: Nonce): Ptk {
    DerivePtk(Pbkdf2(pass, Capped(ssid), 4096, 32), bssid, sa, NonceOf(m1), snonce)
  }

  predicate Verified(kck: Block, x: Rx) { x.Got? && HasMic(x.frame) && MicOk(kck, x.frame) }

  function Silences(rx: seq<Rx>, lo: nat, hi: nat): nat
    decreases hi
  {
    if hi <= lo then 0 else Silences(rx, lo, hi - 1) + if At(rx, hi - 1).Silence? then 1 else 0
  }

  /** Attempt `p` is made: no earlier frame verified and fewer than 8 attempts were silent. */
  ghost predicate Reaches(rx: seq<Rx>, kck: Block, p: nat) {
    1 <= p <= 30 && Silences(rx, 1, p) < 8 && forall q :: 1 <= q < p ==> !Verified(kck, At(rx, q))
  }

  /** Attempt `p` brings the first verified frame. */
  ghost predicate Decides(rx: seq<Rx>, kck: Block, p: nat) {
    Reaches(rx, kck, p) && Verified(kck, At(rx, p))
  }

  /** The loop gives up after receive `end - 1`: the 30th attempt, or the 8th silence. */
  ghost predicate GivesUp(rx: seq<Rx>, end: nat) {
    2 <= end <= 31 && Silences(rx, 1, end - 1) < 8 && (end == 31 || Silences(rx, 1, end) == 8)
  }

  /** Silence alone: the loop gives up after message 1 and eight attempts, with nine messages 2 sent. */
  lemma SilenceGivesUp(rx: seq<Rx>, kck: Block, snonce: Nonce)
    requires At(rx, 0).Got? && forall i :: 1 <= i < 9 ==> At(rx, i).Silence?
    ensures GivesUp(rx, 9) && Answers(rx, kck, snonce, 9) == seq(9, _ => Message2(kck, ReplayOf(At(rx, 0).frame), snonce))
  {
    hide Message2, ReplayOf;
    SilentSoFar(rx, kck, snonce, 9);
    SilentSoFar(rx, kck, snonce, 8);
  }

  lemma {:induction false} SilentSoFar(rx: seq<Rx>, kck: Block, snonce: Nonce, n: nat)
    requires 1 <= n <= 9 && At(rx, 0).Got? && forall i :: 1 <= i < n ==> At(rx, i).Silence?
    ensures Silences(rx, 1, n) == n - 1 && Counter(rx, n) == ReplayOf(At(rx, 0).frame)
    ensures Answers(rx, kck, snonce, n) == seq(n, _ => Message2(kck, ReplayOf(At(rx, 0).frame), snonce))
  {
    hide Message2, ReplayOf;
    if n > 1 { SilentSoFar(rx, kck, snonce, n - 1); }
  }

  /** Frames that never verify: the loop gives up after thirty attempts. */
  lemma {:induction false} FloodGivesUp(rx: seq<Rx>, n: nat)
    requires n <= 31 && forall i :: 1 <= i < n ==> At(rx, i).Got?
    ensures Silences(rx, 1, n) == 0 && (n == 31 ==> GivesUp(rx, 31))
  {
    if n > 1 { FloodGivesUp(rx, n - 1); }
  }

  /** There is one point at which it gives up. */
  lemma GivesUpOnce(rx: seq<Rx>, p: nat, q: nat)
    requires GivesUp(rx, p) && GivesUp(rx, q)
    ensures p == q
  {
    hide Silences;
    if p < q { SilencesMonotone(rx, 1, p, q - 1); }
    if q < p { SilencesMonotone(rx, 1, q, p - 1); }
  }

  lemma {:induction false} SilencesMonotone(rx: seq<Rx>, lo: nat, a: nat, b: nat)
    requires a <= b
    ensures Silences(rx, lo, a) <= Silences(rx, lo, b)
    decreases b
  {
    if a < b { SilencesMonotone(rx, lo, a, b - 1); }
  }

  /** At most one frame decides the handshake. */
  lemma DecidesOnce(rx: seq<Rx>, kck: Block, p: nat, q: nat)
    requires Decides(rx, kck, p) && Decides(rx, kck, q)
    ensures p == q
  {}

  lemma NothingSilent(rx: seq<Rx>)
    ensures Silences(rx, 1, 1) == 0
  {}

  lemma SilencesNext(rx: seq<Rx>, p: nat)
    requires p >= 1
    ensures Silences(rx, 1, p + 1) == Silences(rx, 1, p) + if At(rx, p).Silence? then 1 else 0
  {}

  lemma FirstVerified(rx: seq<Rx>, kck: Block, p: nat)
    requires 1 <= p <= 30 && Silences(rx, 1, p) < 8 && Verified(kck, At(rx, p))
    requires forall q :: 1 <= q < p ==> !Verified(kck, At(rx, q))
    ensures Decides(rx, kck, p)
  {
    hide Verified, Silences;
  }

  /** Once the budget is spent without a verified frame, no attempt can decide. */
  lemma NoneDecides(rx: seq<Rx>, kck: Block, end: nat)
    requires end == 31 || (end >= 1 && Silences(rx, 1, end) >= 8)
    requires forall q :: 1 <= q < end ==> !Verified(kck, At(rx, q))
    ensures forall p: nat :: !Decides(rx, kck, p)
  {
    hide Verified, Silences;
    forall p: nat ensures !Decides(rx, kck, p) {
      if p >= end { SilencesMonotone(rx, 1, end, p); }
    }
  }

  lemma DecidingIsFrame(rx: seq<Rx>, kck: Block, p: nat)
    requires Decides(rx, kck, p)
    ensures At(rx, p).Got?
  {}

  /** A usable group key has 16 to 32 bytes; it came in 16 to 256 bytes of key data, whole blocks. */
  lemma GtkSize(kek: Block, f: Octets)
    requires |f| >= 99
    ensures GtkOf(kek, f).Some? ==>
      && 16 <= |GtkOf(kek, f).value.key| <= 32
      && 16 <= KeyDataLen(f) <= 256 && KeyDataLen(f) % 8 == 0 && 99 + KeyDataLen(f) <= |f|
  {
    hide Unwrap, KeyDataLen;
    forall kd: Octets ensures FindGtk(kd, 0).Some? ==> |FindGtk(kd, 0).value.key| <= 32 { FoundSize(kd, 0); }
  }

  lemma {:induction false} FoundSize(kd: Octets, i: nat)
    ensures FindGtk(kd, i).Some? ==> |FindGtk(kd, i).value.key| <= 32
    decreases |kd| - i
  {
    hide Value;
    if i + 2 <= |kd| && i + 2 + Value(kd[i + 1]) <= |kd| { FoundSize(kd, i + 2 + Value(kd[i + 1])); }
  }

  // ------------------------------------------------ what the supplicant says

  /** The counter a message 2 answers after the first q receives: that of the latest message 1. */
  function Counter(rx: seq<Rx>, q: nat): Replay {
    if q == 0 then Zeros(8)
    else
      match At(rx, q - 1)
      case Got(f) => if q == 1 || !HasMic(f) then ReplayOf(f) else Counter(rx, q - 1)
      case Silence => Counter(rx, q - 1)
  }

  /** Everything sent after the first q receives: one message 2 for message 1, one for each
      silence and one for each repeated message 1. */
  function Answers(rx: seq<Rx>, kck: Block, snonce: Nonce, q: nat): seq<Octets> {
    if q == 0 then []
    else
      var x := At(rx, q - 1);
      Answers(rx, kck, snonce, q - 1)
      + if q > 1 && x.Got? && HasMic(x.frame) then [] else [Message2(kck, Counter(rx, q), snonce)]
  }

  /** Is this a message 3 that reached us again? */
  predicate Repeated(kck: Block, x: Rx) { Verified(kck, x) && Pairwise(x.frame) }

  /** Message 4 again for each repeated message 3 among the next n receives, up to a silence. */
  function Repeats(rx: seq<Rx>, kck: Block, q: nat, n: nat): seq<Octets>
    decreases n
  {
    if n == 0 || At(rx, q).Silence? then []
    else
      (if Repeated(kck, At(rx, q)) then [Message4(kck, ReplayOf(At(rx, q).frame))] else [])
      + Repeats(rx, kck, q + 1, n - 1)
  }

  /** After the message 3 at p is accepted: message 4, and again for repeats. */
  function Confirmation(rx: seq<Rx>, kck: Block, p: nat, m3: Frame): seq<Octets> {
    [Message4(kck, ReplayOf(m3))] + Repeats(rx, kck, p + 1, 3)
  }

  /** Three repeats of a message 3 right behind it are confirmed too, a fourth is not waited for. */
  lemma RepeatsConfirmed(rx: seq<Rx>, kck: Block, p: nat, m3: Frame)
    requires forall q :: p < q <= p + 3 ==> At(rx, q) == Got(m3)
    requires Verified(kck, Got(m3)) && Pairwise(m3)
    ensures Confirmation(rx, kck, p, m3) == seq(4, _ => Message4(kck, ReplayOf(m3)))
  {
    hide Message4, ReplayOf, Verified, Pairwise;
    var r := [Message4(kck, ReplayOf(m3))];
    assert Repeats(rx, kck, p + 4, 0) == [];
    assert Repeats(rx, kck, p + 3, 1) == r;
    assert Repeats(rx, kck, p + 2, 2) == r + r;
    assert Repeats(rx, kck, p + 1, 3) == r + (r + r);
  }

  /** f is answerable: it carries a MIC under the session key and a counter received before q. */
  ghost predicate Proper(rx: seq<Rx>, kck: Block, q: nat, f: Octets) {
    && |f| >= 99 && MicOk(kck, f)
    && exists k :: 0 <= k < q && At(rx, k).Got? && ReplayOf(At(rx, k).frame) == ReplayOf(f)
  }

  lemma {:induction false} CounterReceived(rx: seq<Rx>, q: nat)
    requires q >= 1 && At(rx, 0).Got?
    ensures exists k :: 0 <= k < q && At(rx, k).Got? && ReplayOf(At(rx, k).frame) == Counter(rx, q)
  {
    hide ReplayOf;
    match At(rx, q - 1)
    case Got(f) => if q > 1 && HasMic(f) { CounterReceived(rx, q - 1); }
    case Silence => CounterReceived(rx, q - 1);
  }

  /** Everything sent before message 4 is authenticated and answers a received counter. */
  lemma {:induction false} AnswersProper(rx: seq<Rx>, kck: Block, snonce: Nonce, q: nat)
    requires At(rx, 0).Got?
    ensures forall i :: 0 <= i < |Answers(rx, kck, snonce, q)| ==> Proper(rx, kck, q, Answers(rx, kck, snonce, q)[i])
  {
    hide MicOk, ReplayOf, Message2, Counter;
    if q > 0 {
      AnswersProper(rx, kck, snonce, q - 1);
      Message2Fields(kck, Counter(rx, q), snonce);
      CounterReceived(rx, q);
      var before := Answers(rx, kck, snonce, q - 1);
      assert forall i :: 0 <= i < |before| ==> Proper(rx, kck, q - 1, before[i]);
    }
  }

  lemma Message2Fields(kck: Block, replay: Replay, snonce: Nonce)
    ensures var f := Message2(kck, replay, snonce); |f| >= 99 && MicOk(kck, f) && ReplayOf(f) == replay && NonceOf(f) == snonce
  {
    hide KeyFrame, WithMic, MicOk, ReplayOf, NonceOf;
    KeyFrameFields(kck, 0x010a, replay, snonce, RSN_IE);
  }

  lemma Message4Fields(kck: Block, replay: Replay)
    ensures var f := Message4(kck, replay); |f| >= 99 && MicOk(kck, f) && ReplayOf(f) == replay
  {
    hide KeyFrame, WithMic, MicOk, ReplayOf;
    KeyFrameFields(kck, 0x030a, replay, Zeros(32), []);
  }

  lemma {:induction false} RepeatsProper(rx: seq<Rx>, kck: Block, q: nat, n: nat)
    ensures forall i :: 0 <= i < |Repeats(rx, kck, q, n)| ==> Proper(rx, kck, q + n, Repeats(rx, kck, q, n)[i])
    decreases n
  {
    hide MicOk, ReplayOf, Message4, Repeated;
    if n > 0 && At(rx, q).Got? {
      RepeatsProper(rx, kck, q + 1, n - 1);
      Message4Fields(kck, ReplayOf(At(rx, q).frame));
    }
  }

  /** So is everything sent in confirmation. */
  lemma ConfirmationProper(rx: seq<Rx>, kck: Block, p: nat, m3: Frame)
    requires At(rx, p) == Got(m3)
    ensures forall i :: 0 <= i < |Confirmation(rx, kck, p, m3)| ==>
      Proper(rx, kck, p + 4, Confirmation(rx, kck, p, m3)[i])
  {
    hide MicOk, ReplayOf, Message4, Repeats;
    RepeatsProper(rx, kck, p + 1, 3);
    Message4Fields(kck, ReplayOf(m3));
    assert Proper(rx, kck, p + 4, Message4(kck, ReplayOf(m3)));
  }

  class Supplicant {
    const rx: seq<Rx>
    const tables: Tables
    var pos: nat
    var kck: Octets
    var kek: Octets
    var tk: Octets
    var gtk: Octets
    var gtkLen: nat
    var gtkIdx: nat
    ghost var sent: seq<Octets>
    ghost var installs: seq<Install>

    constructor (rx: seq<Rx>)
      ensures this.rx == rx && pos == 0 && tables.Valid() && fresh(tables) && fresh(tables.rsbox)
      ensures sent == [] && installs == []
    {
      this.rx := rx;
      tables := new Tables();
      pos, kck, kek, tk, gtk, gtkLen, gtkIdx := 0, [], [], [], [], 0, 0;
      sent, installs := [], [];
    }

    /** No key material is left in memory. */
    ghost predicate Wiped()
      reads this
    {
      kck == Zeros(16) && kek == Zeros(16) && tk == Zeros(16) && gtk == Zeros(32)
    }

    method Recv(eapol: array<Byte>) returns (elen: nat)
      requires eapol.Length == 512
      modifies this`pos, eapol
      ensures pos == old(pos) + 1
      ensures match At(rx, old(pos))
        case Silence => elen == 0
        case Got(f) => elen == |f| && eapol[..elen] == f
    {
      var x := At(rx, pos);
      pos := pos + 1;
      match x
      case Silence => elen := 0;
      case Got(f) =>
        CopyAt(eapol, 0, f);
        elen := |f|;
    }

    method Send(f: Octets)
      modifies this`sent
      ensures sent == old(sent) + [f]
    {
      sent := sent + [f];
    }

    method SendM2(frame: array<Byte>, replay: Replay, snonce: Nonce, k: Block) returns (m2: nat)
      requires frame.Length == 568
      modifies this`sent, frame
      ensures m2 <= 568 && frame[..m2] == Message2(k, replay, snonce)
      ensures sent == old(sent) + [Message2(k, replay, snonce)]
    {
      hide KeyFrame, WithMic;
      m2 := BuildEapolKey(frame, 0x010a, replay, Some(snonce), k, true);
      Send(frame[..m2]);
    }

    method SendM4(frame: array<Byte>, replay: Replay, k: Block)
      requires frame.Length == 568
      modifies this`sent, frame
      ensures sent == old(sent) + [Message4(k, replay)]
    {
      hide KeyFrame, WithMic;
      var m4 := BuildEapolKey(frame, 0x030a, replay, None, k, false);
      Send(frame[..m4]);
    }

    /** Compare the MIC field with the MIC computed over the received frame. */
    method CheckMic(k: Block, eapol: array<Byte>, elen: nat) returns (ok: bool)
      requires 99 <= elen <= eapol.Length == 512
      modifies eapol
      ensures eapol[..] == old(eapol[..]) && (ok <==> MicOk(k, eapol[..elen]))
    {
      hide Mic;
      var want := eapol[81..97];
      var got := EapolMic(k, eapol, elen);
      assert eapol[..elen][81..97] == want;
      ok := want == got;
    }

    /** One pass of the message 3 loop: silence resends message 2, a frame without MIC is a
        repeated message 1 and gets a new message 2, a wrong MIC is ignored. */
    method AttemptM3(eapol: array<Byte>, frame: array<Byte>, m2: nat, snonce: Nonce, k: Block)
      returns (verified: bool, silent: bool, elen: nat, m2': nat)
      requires pos >= 1 && eapol.Length == 512 && frame.Length == 568 && m2 <= 568
      requires sent == Answers(rx, k, snonce, pos) && frame[..m2] == Message2(k, Counter(rx, pos), snonce)
      modifies this`pos, this`sent, eapol, frame
      ensures pos == old(pos) + 1 && m2' <= 568
      ensures sent == Answers(rx, k, snonce, pos) && frame[..m2'] == Message2(k, Counter(rx, pos), snonce)
      ensures silent <==> At(rx, old(pos)).Silence?
      ensures verified <==> Verified(k, At(rx, old(pos)))
      ensures verified ==> 99 <= elen <= 512 && eapol[..elen] == At(rx, old(pos)).frame
    {
      hide MicOk, Message2, ReplayOf;
      verified, silent, m2' := false, false, m2;
      ghost var ready := frame[..m2];
      elen := Recv(eapol);
      assert frame[..m2] == ready;
      if elen == 0 {
        Send(frame[..m2]);
        silent := true;
        return;
      }
      ghost var got := eapol[..elen];
      assert eapol[5] == got[5];
      if eapol[5] & 0x01 == 0 {
        m2' := SendM2(frame, ReplayOf(eapol[..elen]), snonce, k);
        return;
      }
      verified := CheckMic(k, eapol, elen);
      assert frame[..m2] == ready && eapol[..elen] == got;
      assert sent + [] == sent;
    }

    /** After success, answer up to three repeated message 3 frames with message 4. */
    method AnswerRepeats(eapol: array<Byte>, frame: array<Byte>, k: Block)
      requires eapol.Length == 512 && frame.Length == 568 && eapol != frame
      modifies this`pos, this`sent, eapol, frame
      ensures old(pos) <= pos <= old(pos) + 3 && sent == old(sent) + Repeats(rx, k, old(pos), 3)
    {
      hide MicOk, Message4, ReplayOf, Repeats;
      ghost var goal := sent + Repeats(rx, k, pos, 3);
      for w := 0 to 3
        invariant pos == old(pos) + w && sent + Repeats(rx, k, pos, 3 - w) == goal
      {
        RepeatsStep(rx, k, pos, 3 - w, sent);
        var rlen := Recv(eapol);
        if rlen == 0 { return; }
        ghost var got := eapol[..rlen];
        assert eapol[5] == got[5] && eapol[6] == got[6];
        if eapol[5] & 0x01 != 0 && eapol[6] & 0x08 != 0 {
          var f := eapol[..rlen];
          var ok := CheckMic(k, eapol, rlen);
          if ok { SendM4(frame, ReplayOf(f), k); }
        }
      }
      RepeatsStep(rx, k, pos, 0, sent);
    }

    /** The message 3 loop: at most 8 silent attempts and 30 attempts in all. */
    method WaitM3(eapol: array<Byte>, frame: array<Byte>, m2: nat, snonce: Nonce, k: Block)
      returns (found: bool, elen: nat)
      requires pos == 1 && eapol.Length == 512 && frame.Length == 568 && m2 <= 568
      requires sent == Answers(rx, k, snonce, pos) && frame[..m2] == Message2(k, Counter(rx, pos), snonce)
      modifies this`pos, this`sent, eapol, frame
      ensures 1 <= pos <= 31 && sent == Answers(rx, k, snonce, pos)
      ensures found <==> exists p: nat :: Decides(rx, k, p)
      ensures !found ==> GivesUp(rx, pos)
      ensures found ==> Decides(rx, k, pos - 1) && 99 <= elen <= 512 && eapol[..elen] == At(rx, pos - 1).frame
    {
      hide MicOk, Answers, Counter, Message2, Verified, Silences, Decides;
      NothingSilent(rx);
      var timeouts, iters, len := 0, 0, m2;
      elen := 0;
      while timeouts < 8 && iters < 30
        invariant 0 <= iters <= 30 && pos == 1 + iters && timeouts == Silences(rx, 1, pos) <= 8
        invariant iters > 0 ==> Silences(rx, 1, pos - 1) < 8
        invariant sent == Answers(rx, k, snonce, pos) && len <= 568 && frame[..len] == Message2(k, Counter(rx, pos), snonce)
        invariant forall q :: 1 <= q < pos ==> !Verified(k, At(rx, q))
        decreases 30 - iters
      {
        iters := iters + 1;
        SilencesNext(rx, pos);
        var verified, silent, e, m := AttemptM3(eapol, frame, len, snonce, k);
        if verified {
          FirstVerified(rx, k, pos - 1);
          return true, e;
        }
        if silent { timeouts := timeouts + 1; }
        len := m;
      }
      NoneDecides(rx, k, pos);
      return false, 0;
    }

    method Wipe()
      modifies this`kck, this`kek, this`tk, this`gtk
      ensures Wiped()
    {
      kck, kek, tk, gtk := Zeros(16), Zeros(16), Zeros(16), Zeros(32);
    }

    /** What the rest of the handshake does once the pairwise key is derived: which keys are
        installed, and every frame sent. */
    ghost predicate Outcome(ptk: Ptk, snonce: Nonce, rc: int, before: seq<Install>)
      reads this`installs, this`sent, this`pos
    {
      && (rc == -4 <==> !exists p: nat :: Decides(rx, Kck(ptk), p))
      && (forall p: nat :: Decides(rx, Kck(ptk), p) ==>
        match At(rx, p)
        case Got(m3) => Accepted(ptk, p, m3, rc, before, Answers(rx, Kck(ptk), snonce, p + 1))
        case Silence => false)
      && (rc == -4 ==> installs == before && GivesUp(rx, pos) && sent == Answers(rx, Kck(ptk), snonce, pos))
    }

    /** The verified message 3, received at p, decides: its group key and the pairwise key are
        installed and it is confirmed, or it holds no usable group key and nothing is. */
    ghost predicate Accepted(ptk: Ptk, p: nat, m3: Frame, rc: int, before: seq<Install>, said: seq<Octets>)
      reads this`installs, this`sent
    {
      match GtkOf(Kek(ptk), m3)
      case None => rc == -5 && installs == before && sent == said
      case Some(g) =>
        && rc == 0 && installs == before + [Install(Tk(ptk), g)]
        && sent == said + Confirmation(rx, Kck(ptk), p, m3)
    }

    /** A verified message 3: take its group key, acknowledge and install. */
    method Conclude(eapol: array<Byte>, elen: nat, frame: array<Byte>, ptk: Ptk, ghost m3: Frame) returns (rc: int)
      requires eapol.Length == 512 && frame.Length == 568 && eapol != frame && tables.Valid()
      requires 2 <= pos <= 31 && 99 <= elen <= 512 && gtk == Zeros(32) && tk == Tk(ptk)
      requires eapol[..elen] == m3
      requires tables.rsbox != eapol && tables.rsbox != frame
      modifies this`pos, this`sent, this`installs, this`gtk, this`gtkLen, this`gtkIdx, eapol, frame, tables, tables.rsbox
      ensures pos <= 34 && (rc == 0 || rc == -5)
      ensures Accepted(ptk, old(pos) - 1, m3, rc, old(installs), old(sent))
    {
      hide GtkOf, ReplayOf, Kck, Kek, Tk, Message4, Repeats;
      var f := eapol[..elen];
      var g := ExtractGtk(tables, Kek(ptk), eapol, elen);
      if g.None? { return -5; }
      GtkSize(Kek(ptk), f);
      gtkLen, gtkIdx, gtk := |g.value.key|, g.value.keyidx, g.value.key + gtk[|g.value.key|..];
      SendM4(frame, ReplayOf(f), Kck(ptk));
      AnswerRepeats(eapol, frame, Kck(ptk));
      assert gtk[..gtkLen] == g.value.key;
      installs := installs + [Install(tk, Gtk(gtkIdx, gtk[..gtkLen]))];
      return 0;
    }

    method AfterM1(eapol: array<Byte>, frame: array<Byte>, m1: Frame, ptk: Ptk, snonce: Nonce) returns (rc: int)
      requires eapol.Length == 512 && frame.Length == 568 && eapol != frame && tables.Valid()
      requires pos == 1 && sent == [] && gtk == Zeros(32) && tk == Tk(ptk) && At(rx, 0) == Got(m1)
      requires tables.rsbox != eapol && tables.rsbox != frame
      modifies this`pos, this`sent, this`installs, this`gtk, this`gtkLen, this`gtkIdx, eapol, frame, tables, tables.rsbox
      ensures pos <= 34 && Outcome(ptk, snonce, rc, old(installs))
      ensures rc == 0 || rc == -4 || rc == -5
    {
      hide Verified, Accepted, Kck, Kek, Tk, Answers, Counter, Message2, ReplayOf;
      FirstAnswer(rx, Kck(ptk), snonce, m1);
      var m2 := SendM2(frame, ReplayOf(m1), snonce, Kck(ptk));
      var found, elen := WaitM3(eapol, frame, m2, snonce, Kck(ptk));
      if !found { return -4; }
      ghost var p := pos - 1;
      forall q | Decides(rx, Kck(ptk), q) ensures q == p { DecidesOnce(rx, Kck(ptk), p, q); }
      assert At(rx, p).Got? by { DecidingIsFrame(rx, Kck(ptk), p); }
      rc := Conclude(eapol, elen, frame, ptk, At(rx, p).frame);
    }

    /** Run the handshake. 0: keys installed; -2: no message 1; -4: no verified message 3;
        -5: the verified message 3 has no usable group key. */
    method Run(bssid: Mac, sa: Mac, ssid: Octets, pass: Octets, snonce: Nonce) returns (rc: int)
      requires pos == 0 && sent == [] && |pass| < MAX_MESSAGE && tables.Valid()
      modifies this, tables, tables.rsbox
      ensures Wiped() && pos <= 34
      ensures match At(rx, 0)
        case Silence => rc == -2 && sent == [] && installs == old(installs)
        case Got(m1) =>
          var ptk := SessionPtk(pass, ssid, bssid, sa, m1, snonce);
          (rc == 0 || rc == -4 || rc == -5) && Outcome(ptk, snonce, rc, old(installs))
    {
      hide Pbkdf2, DerivePtk, Kck, Kek, Tk, Outcome;
      gtkLen, gtkIdx, gtk := 0, 0, Zeros(32);
      var pmk := DerivePmk(pass, ssid);
      var eapol, frame := new Byte[512], new Byte[568];
      var e := Recv(eapol);
      if e == 0 { Wipe(); return -2; }
      var m1 := eapol[..e];
      var ptk := Derive(pmk, bssid, sa, NonceOf(m1), snonce);
      kck, kek, tk := Kck(ptk), Kek(ptk), Tk(ptk);
      rc := AfterM1(eapol, frame, m1, ptk, snonce);
      Wipe();
    }
  }

  lemma FirstAnswer(rx: seq<Rx>, k: Block, snonce: Nonce, m1: Frame)
    requires At(rx, 0) == Got(m1)
    ensures Counter(rx, 1) == ReplayOf(m1) && Answers(rx, k, snonce, 1) == [] + [Message2(k, ReplayOf(m1), snonce)]
  {
    hide Message2, ReplayOf;
    assert Answers(rx, k, snonce, 0) == [];
  }

  lemma RepeatsStep(rx: seq<Rx>, k: Block, q: nat, n: nat, sent: seq<Octets>)
    ensures n == 0 || At(rx, q).Silence? ==> sent + Repeats(rx, k, q, n) == sent
    ensures n > 0 && At(rx, q).Got? ==>
      var more := if Repeated(k, At(rx, q)) then sent + [Message4(k, ReplayOf(At(rx, q).frame))] else sent;
      sent + Repeats(rx, k, q, n) == more + Repeats(rx, k, q + 1, n - 1)
  {
    hide MicOk, Message4, ReplayOf, Repeated;
    if n > 0 && At(rx, q).Got? {
      assert [] + Repeats(rx, k, q + 1, n - 1) == Repeats(rx, k, q + 1, n - 1);
    }
  }

  /** The pairwise master key: the passphrase hashed with the network name. */
  method DerivePmk(pass: Octets, ssid: Octets) returns (pmk: Octets)
    requires |pass| < MAX_MESSAGE
    ensures pmk == Pbkdf2(pass, Capped(ssid), 4096, 32)
  {
    hide Pbkdf2, Capped;
    var buf := new Byte[32];
    Pbkdf2Sha1(pass, ssid, 4096, buf);
    pmk := buf[..];
  }

  method Derive(pmk: Octets, aa: Mac, spa: Mac, anonce: Nonce, snonce: Nonce) returns (ptk: Ptk)
    requires |pmk| == 32
    ensures ptk == DerivePtk(pmk, aa, spa, anonce, snonce)
  {
    hide Prf, Less;
    var seed := (if Less(aa, spa) then aa + spa else spa + aa)
      + (if Less(anonce, snonce) then anonce + snonce else snonce + anonce);
    var out := new Byte[48];
    PrfInto(pmk, PTK_LABEL, seed, out);
    ptk := out[..];
  }
}
