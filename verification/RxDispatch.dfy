/** Classification of received 802.11 frames and the Block Ack setup handshake. */
module RxDispatch {
  import opened Bytes
  import opened SeqNum
  import opened ReorderSpec

  const TID_NUM := 8
  /** A QoS frame is at least a MAC header long; the receive ring bounds it from above. */
  const RX_BUF_SIZE := 11520

  type RxFrame = f: Octets | 24 <= |f| <= RX_BUF_SIZE witness seq(24, _ => 0)
  type TidNo = t: nat | t < TID_NUM

  /** The fields of an ADDBA request; parameter bits: A-MSDU 0, policy 1, TID 2-5, buffer size 6-15. */
  datatype Addba = Addba(dialog: Byte, param: nat, timeout: nat, ssn: Sn)

  function ParamTid(param: nat): nat { (param / 4) % 16 }
  function ParamBufSize(param: nat): nat { (param / 64) % 1024 }

  function ParseAddba(f: Octets): Addba
    requires |f| >= 33
  {
    Addba(f[26], Le16(f, 27), Le16(f, 29), Le16(f, 31) / 16)
  }

  /** The window we agree to: at most 64, and 64 when the originator leaves it to us. */
  function AgreedSize(param: nat): (w: nat)
    ensures 1 <= w <= WIN_MAX
  {
    var b := ParamBufSize(param);
    if b == 0 || b > WIN_MAX then WIN_MAX else b
  }

  function AddbaResponse(rq: Addba, bssid: Mac, mac: Mac): (r: Octets)
    ensures |r| == 33
  {
    [0xd0, 0, 0, 0] + bssid + mac + bssid + [0, 0]
    + [0x03, 0x01, rq.dialog, 0, 0]
    + PutLe16(rq.param % 64 + 64 * AgreedSize(rq.param)) + PutLe16(rq.timeout)
  }

  /** What the originator reads in our response. */
  datatype AddbaReply = AddbaReply(dialog: Byte, status: nat, param: nat, timeout: nat)

  function ParseReply(r: Octets): AddbaReply
    requires |r| >= 33
  {
    AddbaReply(r[26], Le16(r, 27), Le16(r, 29), Le16(r, 31))
  }

  /** The buffer size we advertise is exactly the window we activate; everything else in
      the request is echoed. */
  lemma AddbaAgreement(f: Octets, bssid: Mac, mac: Mac)
    requires |f| >= 33
    ensures var rq := ParseAddba(f);
      var rp := ParseReply(AddbaResponse(rq, bssid, mac));
      && ParamBufSize(rp.param) == AgreedSize(rq.param)
      && ParamTid(rp.param) == ParamTid(rq.param) && rp.param % 4 == rq.param % 4
      && rp.dialog == rq.dialog && rp.status == 0 && rp.timeout == rq.timeout
      && (1 <= ParamBufSize(rq.param) <= 64 ==> ParamBufSize(rp.param) == ParamBufSize(rq.param))
  {
    hide Value, ToByte, PutLe16, AgreedSize;
    var rq := ParseAddba(f);
    var p := rq.param % 64 + 64 * AgreedSize(rq.param);
    ReplyBytes(rq, bssid, mac, AddbaResponse(rq, bssid, mac));
    PutLe16Value(p);
    PutLe16Value(rq.timeout);
    LowBits(rq.param, AgreedSize(rq.param));
    SizeKept(rq.param);
  }

  lemma SizeKept(param: nat)
    ensures 1 <= ParamBufSize(param) <= WIN_MAX ==> AgreedSize(param) == ParamBufSize(param)
  {}

  lemma ReplyBytes(rq: Addba, bssid: Mac, mac: Mac, r: Octets)
    requires r == AddbaResponse(rq, bssid, mac)
    ensures r[26] == rq.dialog && Le16(r, 27) == 0
    ensures Le16(r, 29) == Le16(PutLe16(rq.param % 64 + 64 * AgreedSize(rq.param)), 0)
    ensures Le16(r, 31) == Le16(PutLe16(rq.timeout), 0)
  {
    hide ToByte, Sum, PutLe16;
    var p := PutLe16(rq.param % 64 + 64 * AgreedSize(rq.param));
    assert r[29..31] == p && r[31..33] == PutLe16(rq.timeout);
    assert r[29] == r[29..31][0] && r[30] == r[29..31][1] && r[31] == r[31..33][0] && r[32] == r[31..33][1];
    assert r[27] == 0 && r[28] == 0;
    ZeroValue();
  }

  lemma LowBits(param: nat, size: nat)
    requires size < 1024
    ensures var p := param % 64 + 64 * size;
      ParamBufSize(p) == size && ParamTid(p) == ParamTid(param) && p % 4 == param % 4
  {
    var lo, hi := param % 64, param / 64;
    var p := lo + 64 * size;
    assert p / 64 == size;
    Quarter(lo, size);
    Quarter(lo, hi);
  }

  lemma Quarter(lo: nat, hi: nat)
    requires lo < 64
    ensures ((lo + 64 * hi) / 4) % 16 == lo / 4 && (lo + 64 * hi) % 4 == lo % 4
  {
    assert (lo + 64 * hi) / 4 == lo / 4 + 16 * hi;
  }

  datatype Action =
    | SetUp(tid: TidNo, ssn: Sn, win: nat, reply: Addba)
    | TearDown(tid: TidNo)
    | Reorder(tid: TidNo, sn: Sn)
    | PassUp
    | Ignore

  /** What the receive thread does with a frame, before looking at session state. */
  function Classify(f: RxFrame): Action {
    if f[0] & 0x0c == 0 then
      if f[0] & 0xf0 == 0xd0 && |f| >= 26 && f[24] == 0x03 then
        if f[25] == 0x00 then
          if |f| < 33 then Ignore
          else
            var rq := ParseAddba(f);
            if ParamTid(rq.param) >= TID_NUM then Ignore
            else SetUp(ParamTid(rq.param), rq.ssn, AgreedSize(rq.param), rq)
        else if f[25] == 0x02 then
          if |f| < 30 then Ignore
          else
            var tid := (Le16(f, 26) / 4096) % 16;
            if tid < TID_NUM then TearDown(tid) else Ignore
        else Ignore
      else Ignore
    else if f[0] & 0x0c != 0x08 then Ignore
    else if f[0] & 0x80 != 0 && |f| >= 26 && f[4] & 0x01 == 0 && f[24] & 0x60 != 0x20 then
      Reorder(Value(f[24] & 0x07), Le16(f, 22) / 16)
    else PassUp
  }
}
