/** What the receive thread reads in frames written field by field (section 9.2.4 and 9.6.4 of
    IEEE Std 802.11-2020). */
module RxFields {
  import opened Bytes
  import opened RxDispatch

  // ------------------------------------------------ bit fields

  lemma Split4(low: nat, high: nat)
    ensures low < 4 ==> (low + 4 * high) / 4 == high && (low + 4 * high) % 4 == low
  {}

  lemma Split16(low: nat, high: nat)
    ensures low < 16 ==> (low + 16 * high) / 16 == high && (low + 16 * high) % 16 == low
  {}

  lemma LowBits(b: Byte)
    ensures Value(b & 0x07) == Value(b) % 8 && (b & 0x01 != 0 <==> Value(b) % 2 == 1)
  {}

  lemma HighBits(b: Byte)
    ensures (b & 0x80 != 0 <==> Value(b) >= 128) && (b & 0x60 == 0x20 <==> Value(b) / 32 % 4 == 1)
  {
    hide Sum;
    AckMask(b);
    SumHigh(b & 1 != 0, b & 2 != 0, b & 4 != 0, b & 8 != 0, b & 16 != 0, b & 32 != 0, b & 64 != 0, b & 128 != 0);
  }

  lemma AckMask(b: Byte)
    ensures b & 0x60 == 0x20 <==> b & 32 != 0 && b & 64 == 0
    ensures b & 0x80 == b & 128
  {}

  lemma SumHigh(b0: bool, b1: bool, b2: bool, b3: bool, b4: bool, b5: bool, b6: bool, b7: bool)
    ensures var n := Sum(b0, b1, b2, b3, b4, b5, b6, b7);
      n / 32 % 4 == Weight(b5, 1) + Weight(b6, 2) && (n >= 128 <==> b7)
  {
    var low, mid := Weight(b0, 1) + Weight(b1, 2) + Weight(b2, 4) + Weight(b3, 8) + Weight(b4, 16), Weight(b5, 1) + Weight(b6, 2);
    var n := Sum(b0, b1, b2, b3, b4, b5, b6, b7);
    assert n == low + 32 * (mid + 4 * Weight(b7, 1)) && low < 32;
    assert n / 32 == mid + 4 * Weight(b7, 1);
    Split4(mid, Weight(b7, 1));
  }

  lemma TypeBits(b: Byte)
    ensures (b & 0x0c == 0x00 <==> Value(b) / 4 % 4 == 0) && (b & 0x0c == 0x08 <==> Value(b) / 4 % 4 == 2)
    ensures b & 0xf0 == 0xd0 <==> Value(b) / 16 == 13
  {
    hide Sum;
    TypeMask(b);
    SubtypeMask(b);
    SumFields(b & 1 != 0, b & 2 != 0, b & 4 != 0, b & 8 != 0, b & 16 != 0, b & 32 != 0, b & 64 != 0, b & 128 != 0);
  }

  lemma TypeMask(b: Byte)
    ensures b & 0x0c == 0x00 <==> b & 4 == 0 && b & 8 == 0
    ensures b & 0x0c == 0x08 <==> b & 4 == 0 && b & 8 != 0
  {}

  lemma SubtypeMask(b: Byte)
    ensures b & 0xf0 == 0xd0 <==> b & 16 != 0 && b & 32 == 0 && b & 64 != 0 && b & 128 != 0
  {}

  lemma SumFields(b0: bool, b1: bool, b2: bool, b3: bool, b4: bool, b5: bool, b6: bool, b7: bool)
    ensures var n := Sum(b0, b1, b2, b3, b4, b5, b6, b7);
      && n / 4 % 4 == Weight(b2, 1) + Weight(b3, 2)
      && n / 16 == Weight(b4, 1) + Weight(b5, 2) + Weight(b6, 4) + Weight(b7, 8)
  {
    var low, mid := Weight(b0, 1) + Weight(b1, 2), Weight(b2, 1) + Weight(b3, 2);
    var high := Weight(b4, 1) + Weight(b5, 2) + Weight(b6, 4) + Weight(b7, 8);
    hide Weight;
    WeightsSmall(b0, b1, b2, b3);
    SumParts(b0, b1, b2, b3, b4, b5, b6, b7);
    assert Sum(b0, b1, b2, b3, b4, b5, b6, b7) == low + 4 * (mid + 4 * high) == (low + 4 * mid) + 16 * high;
    Split4(low, mid + 4 * high);
    Split4(mid, high);
    Split16(low + 4 * mid, high);
  }

  lemma WeightsSmall(b0: bool, b1: bool, b2: bool, b3: bool)
    ensures Weight(b0, 1) + Weight(b1, 2) < 4 && Weight(b2, 1) + Weight(b3, 2) < 4
  {}

  lemma SumParts(b0: bool, b1: bool, b2: bool, b3: bool, b4: bool, b5: bool, b6: bool, b7: bool)
    ensures Sum(b0, b1, b2, b3, b4, b5, b6, b7) ==
      Weight(b0, 1) + Weight(b1, 2) + 4 * (Weight(b2, 1) + Weight(b3, 2))
      + 16 * (Weight(b4, 1) + Weight(b5, 2) + Weight(b6, 4) + Weight(b7, 8))
  {
  }

  /** The first frame control byte: version 0, type, subtype. */
  function FrameControl(kind: nat, subtype: nat): Byte { ToByte(4 * kind + 16 * subtype) }

  const MANAGEMENT := 0
  const DATA := 2

  lemma FrameControlBits(kind: nat, subtype: nat)
    requires kind < 4 && subtype < 16
    ensures var b := FrameControl(kind, subtype);
      && (b & 0x0c == 0x00 <==> kind == 0) && (b & 0x0c == 0x08 <==> kind == 2)
      && (b & 0x80 != 0 <==> subtype >= 8) && (b & 0xf0 == 0xd0 <==> subtype == 13)
  {
    hide Value, ToByte;
    ByteValue(4 * kind + 16 * subtype);
    Split4(0, kind + 4 * subtype);
    Split4(kind, subtype);
    Split16(4 * kind, subtype);
    TypeBits(FrameControl(kind, subtype));
    HighBits(FrameControl(kind, subtype));
  }

  /** The first QoS control byte: TID, end of service period, ack policy, A-MSDU present. */
  function QosControl(tid: nat, eosp: nat, ack: nat, amsdu: nat): Byte {
    ToByte(tid + 16 * eosp + 32 * ack + 128 * amsdu)
  }

  const NO_ACK := 1

  lemma QosControlBits(tid: nat, eosp: nat, ack: nat, amsdu: nat)
    requires tid < 16 && eosp < 2 && ack < 4 && amsdu < 2
    ensures var b := QosControl(tid, eosp, ack, amsdu);
      && Value(b & 0x07) == tid % 8 && (b & 0x60 == 0x20 <==> ack == NO_ACK) && (b & 0x80 != 0 <==> amsdu == 1)
  {
    hide Value, ToByte;
    var n := tid + 16 * eosp + 32 * ack + 128 * amsdu;
    ByteValue(n);
    LowBits(QosControl(tid, eosp, ack, amsdu));
    HighBits(QosControl(tid, eosp, ack, amsdu));
    QosDigits(tid, eosp, ack, amsdu);
  }

  lemma QosDigits(tid: nat, eosp: nat, ack: nat, amsdu: nat)
    requires tid < 16 && eosp < 2 && ack < 4 && amsdu < 2
    ensures var n := tid + 16 * eosp + 32 * ack + 128 * amsdu;
      n < 256 && n % 8 == tid % 8 && n / 32 % 4 == ack && (n >= 128 <==> amsdu == 1)
  {
    var low := tid + 16 * eosp;
    assert (low + 32 * ack + 128 * amsdu) / 32 == ack + 4 * amsdu;
    assert (ack + 4 * amsdu) % 4 == ack;
    assert tid + 16 * eosp + 32 * ack + 128 * amsdu == tid + 8 * (2 * eosp + 4 * ack + 16 * amsdu);
  }

  /** A multicast address has the lowest bit of its first byte set. */
  predicate Multicast(a: Mac) { Value(a[0]) % 2 == 1 }

  // ------------------------------------------------ headers

  /** The fields every header has. */
  datatype Header = Header(kind: nat, subtype: nat, flags: Byte, dur: Octets, a1: Mac, a2: Mac, a3: Mac, sn: nat, frag: nat)

  predicate HeaderOk(h: Header) { h.kind < 4 && h.subtype < 16 && |h.dur| == 2 && h.sn < 4096 && h.frag < 16 }

  function HeaderBytes(h: Header): Octets {
    [FrameControl(h.kind, h.subtype), h.flags] + h.dur + h.a1 + h.a2 + h.a3 + PutLe16(16 * h.sn + h.frag)
  }

  lemma HeaderAt(h: Header, f: Octets, rest: Octets)
    requires HeaderOk(h) && f == HeaderBytes(h) + rest
    ensures |HeaderBytes(h)| == 24 && f[0] == FrameControl(h.kind, h.subtype) && f[1] == h.flags
    ensures f[4] == h.a1[0] && f[4..10] == h.a1 && f[16..22] == h.a3 && f[22..24] == PutLe16(16 * h.sn + h.frag) && f[24..] == rest
  {
    hide FrameControl, PutLe16;
    var b := HeaderBytes(h);
    assert b[4..10] == h.a1;
    assert b[16..22] == h.a3 && b[22..24] == PutLe16(16 * h.sn + h.frag);
    assert f[4..10] == b[4..10] && f[16..22] == b[16..22] && f[22..24] == b[22..24];
    assert f[4] == f[4..10][0];
  }

  /** Two bytes of a longer text, read as a number. */
  lemma ReadLe16(f: Octets, i: nat, n: nat)
    requires i + 2 <= |f| && f[i..i + 2] == PutLe16(n) && n < 0x10000
    ensures Le16(f, i) == n
  {
    hide Value, ToByte, PutLe16;
    PutLe16Value(n);
    assert f[i] == f[i..i + 2][0] && f[i + 1] == f[i..i + 2][1];
  }

  // ------------------------------------------------ data frames

  /** QoS control of a data frame, and its second byte. */
  datatype Qos = Qos(tid: nat, eosp: nat, ack: nat, amsdu: nat, high: Byte)

  predicate QosOk(q: Qos) { q.tid < 16 && q.eosp < 2 && q.ack < 4 && q.amsdu < 2 }

  function QosBytes(q: Qos): Octets { [QosControl(q.tid, q.eosp, q.ack, q.amsdu), q.high] }

  /** Sequence control: the fragment number in the low four bits of the first byte, the sequence number
      above it, its high eight bits in the second byte. */
  lemma SequenceControl(sn: nat, frag: nat)
    requires sn < 4096 && frag < 16
    ensures PutLe16(16 * sn + frag) == [ToByte(16 * (sn % 16) + frag), ToByte(sn / 16)]
  {
    hide Value, ToByte;
    var n := 16 * sn + frag;
    SequenceDigits(sn, frag);
    ByteValue(n);
    ByteValue(16 * (sn % 16) + frag);
    ValueInjective(ToByte(n), ToByte(16 * (sn % 16) + frag));
  }

  lemma SequenceDigits(sn: nat, frag: nat)
    requires sn < 4096 && frag < 16
    ensures var n := 16 * sn + frag; n / 256 == sn / 16 && n % 256 == 16 * (sn % 16) + frag && 16 * (sn % 16) + frag < 256
  {
    assert sn == 16 * (sn / 16) + sn % 16;
  }

  /** A unicast QoS data frame under an acknowledging policy goes to the window of its TID, under the
      number in its sequence control, fragment number dropped; every other data frame goes straight up. */
  lemma ClassifyQosData(h: Header, q: Qos, rest: Octets, f: RxFrame)
    requires HeaderOk(h) && QosOk(q) && h.kind == DATA && h.subtype >= 8 && f == HeaderBytes(h) + (QosBytes(q) + rest)
    ensures Classify(f) == if Multicast(h.a1) || q.ack == NO_ACK then PassUp else Reorder(q.tid % 8, h.sn)
  {
    hide FrameControl, QosControl, HeaderBytes, PutLe16, Le16, Value;
    HeaderAt(h, f, QosBytes(q) + rest);
    FrameControlBits(h.kind, h.subtype);
    QosControlBits(q.tid, q.eosp, q.ack, q.amsdu);
    LowBits(h.a1[0]);
    assert f[24] == f[24..][0];
    ReadLe16(f, 22, 16 * h.sn + h.frag);
  }

  lemma ClassifyPlainData(h: Header, rest: Octets, f: RxFrame)
    requires HeaderOk(h) && h.kind == DATA && h.subtype < 8 && f == HeaderBytes(h) + rest
    ensures Classify(f) == PassUp
  {
    hide FrameControl, HeaderBytes, PutLe16, Le16, Value;
    HeaderAt(h, f, rest);
    FrameControlBits(h.kind, h.subtype);
  }

  /** Control and extension frames, and management frames other than action frames, are ignored. */
  lemma ClassifyOther(h: Header, rest: Octets, f: RxFrame)
    requires HeaderOk(h) && f == HeaderBytes(h) + rest
    requires (h.kind != DATA && h.kind != MANAGEMENT) || (h.kind == MANAGEMENT && h.subtype != 13)
    ensures Classify(f) == Ignore
  {
    hide FrameControl, HeaderBytes, PutLe16, Le16, Value, ParseAddba;
    HeaderAt(h, f, rest);
    FrameControlBits(h.kind, h.subtype);
  }

  // ------------------------------------------------ Block Ack action frames

  /** The parameter field: A-MSDU support, policy, TID, buffer size. */
  function BaParam(amsdu: nat, policy: nat, tid: nat, size: nat): nat { amsdu + 2 * policy + 4 * tid + 64 * size }

  lemma BaParamFields(amsdu: nat, policy: nat, tid: nat, size: nat)
    requires amsdu < 2 && policy < 2 && tid < 16 && size < 1024
    ensures var p := BaParam(amsdu, policy, tid, size);
      p < 0x10000 && ParamTid(p) == tid && ParamBufSize(p) == size && p % 4 == amsdu + 2 * policy
  {
    var low := amsdu + 2 * policy;
    Split4(low, tid + 16 * size);
    Split16(tid, size);
    assert BaParam(amsdu, policy, tid, size) == (low + 4 * tid) + 64 * size && low + 4 * tid < 64;
    assert ((low + 4 * tid) + 64 * size) / 64 == size;
  }

  function AddbaRequest(h: Header, dialog: Byte, param: nat, timeout: nat, ssn: nat, frag: nat, rest: Octets): Octets {
    HeaderBytes(h) + ([0x03, 0x00, dialog] + PutLe16(param) + PutLe16(timeout) + PutLe16(16 * ssn + frag) + rest)
  }

  /** An ADDBA request starts the window its fields describe: TID, starting number, and the buffer
      size up to 64, or 64 when it is left to us; TIDs from 8 on are declined. */
  lemma ClassifyAddba(h: Header, dialog: Byte, amsdu: nat, policy: nat, tid: nat, size: nat, timeout: nat, ssn: nat, frag: nat,
      rest: Octets, f: RxFrame)
    requires HeaderOk(h) && h.kind == MANAGEMENT && h.subtype == 13
    requires amsdu < 2 && policy < 2 && tid < 16 && size < 1024 && timeout < 0x10000 && ssn < 4096 && frag < 16
    requires f == AddbaRequest(h, dialog, BaParam(amsdu, policy, tid, size), timeout, ssn, frag, rest)
    ensures Classify(f) ==
      if tid >= 8 then Ignore
      else SetUp(tid, ssn, if size == 0 || size > 64 then 64 else size, Addba(dialog, BaParam(amsdu, policy, tid, size), timeout, ssn))
  {
    hide FrameControl, HeaderBytes, PutLe16, Le16, Value, BaParam, ParamTid, ParamBufSize;
    var param := BaParam(amsdu, policy, tid, size);
    var a, b, c := PutLe16(param), PutLe16(timeout), PutLe16(16 * ssn + frag);
    HeaderAt(h, f, [0x03, 0x00, dialog] + a + b + c + rest);
    FrameControlBits(h.kind, h.subtype);
    BaParamFields(amsdu, policy, tid, size);
    AddbaAt(f, dialog, a, b, c, rest);
    ReadLe16(f, 27, param); ReadLe16(f, 29, timeout); ReadLe16(f, 31, 16 * ssn + frag);
  }

  lemma AddbaAt(f: Octets, dialog: Byte, a: Octets, b: Octets, c: Octets, rest: Octets)
    requires |f| >= 24 && |a| == |b| == |c| == 2 && f[24..] == [0x03, 0x00, dialog] + a + b + c + rest
    ensures |f| >= 33 && f[24] == 0x03 && f[25] == 0x00 && f[26] == dialog
    ensures f[27..29] == a && f[29..31] == b && f[31..33] == c
  {
    var g := f[24..];
    assert g[0] == f[24] && g[1] == f[25] && g[2] == f[26];
    assert g[3..5] == a && g[5..7] == b && g[7..9] == c;
    assert f[27..29] == g[3..5] && f[29..31] == g[5..7] && f[31..33] == g[7..9];
  }

  /** DELBA: reserved bits, initiator, TID, and a reason. */
  lemma ClassifyDelba(h: Header, low: nat, tid: nat, reason: Octets, rest: Octets, f: RxFrame)
    requires HeaderOk(h) && h.kind == MANAGEMENT && h.subtype == 13 && low < 4096 && tid < 16 && |reason| == 2
    requires f == HeaderBytes(h) + ([0x03, 0x02] + PutLe16(low + 4096 * tid) + reason + rest)
    ensures Classify(f) == if tid >= 8 then Ignore else TearDown(tid)
  {
    hide FrameControl, HeaderBytes, PutLe16, Le16, Value;
    HeaderAt(h, f, [0x03, 0x02] + PutLe16(low + 4096 * tid) + reason + rest);
    FrameControlBits(h.kind, h.subtype);
    assert f[24] == f[24..][0] && f[25] == f[24..][1] && f[26..28] == f[24..][2..4];
    ReadLe16(f, 26, low + 4096 * tid);
    assert (low + 4096 * tid) / 4096 == tid;
  }

  // ------------------------------------------------ our answer

  /** The response is an action frame from us to the access point that accepts the request: category 3,
      action 1, the dialog token, status 0, the parameters with our buffer size, and the timeout. */
  lemma ResponseFields(rq: Addba, bssid: Mac, mac: Mac)
    ensures var r := AddbaResponse(rq, bssid, mac);
      && r[0] == FrameControl(MANAGEMENT, 13) && r[1] == 0 && r[4..10] == bssid && r[10..16] == mac && r[16..22] == bssid
      && r[24..29] == [0x03, 0x01, rq.dialog, 0x00, 0x00]
      && r[29..31] == PutLe16(rq.param % 64 + 64 * AgreedSize(rq.param)) && r[31..33] == PutLe16(rq.timeout)
  {
    hide PutLe16, ToByte, Value, AgreedSize;
    ActionControl();
    var r := AddbaResponse(rq, bssid, mac);
    assert r[4..10] == bssid && r[10..16] == mac && r[16..22] == bssid;
    assert r[24..29] == [0x03, 0x01, rq.dialog, 0x00, 0x00];
  }

  lemma ActionControl()
    ensures FrameControl(MANAGEMENT, 13) == 0xd0
  {
    hide Value, ToByte;
    ByteValue(208);
    ValueOf208();
    ValueInjective(ToByte(208), 0xd0);
  }

  lemma ValueOf208()
    ensures Value(0xd0) == 208
  {}
}
