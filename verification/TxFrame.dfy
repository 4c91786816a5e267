/** The frames the driver hands to the transmit hardware. */
module TxFrames {
  import opened Bytes

  /** The CCMP header: packet number bytes 0, 1, reserved, key id with ExtIV, bytes 2 to 5. */
  function CcmpHeader(pn: nat): (h: Octets)
    ensures |h| == 8
  {
    [ToByte(pn), ToByte(pn / 0x100), 0, 0x20,
     ToByte(pn / 0x1_0000), ToByte(pn / 0x100_0000), ToByte(pn / 0x1_0000_0000), ToByte(pn / 0x100_0000_0000)]
  }

  function PnOf(h: Octets): nat
    requires |h| == 8
  {
    Value(h[0]) + 0x100 * Value(h[1]) + 0x1_0000 * Value(h[4]) + 0x100_0000 * Value(h[5])
    + 0x1_0000_0000 * Value(h[6]) + 0x100_0000_0000 * Value(h[7])
  }

  lemma SixBytes(n: nat)
    ensures n % 0x100 + 0x100 * (n / 0x100 % 0x100) + 0x1_0000 * (n / 0x1_0000 % 0x100)
      + 0x100_0000 * (n / 0x100_0000 % 0x100) + 0x1_0000_0000 * (n / 0x1_0000_0000 % 0x100)
      + 0x100_0000_0000 * (n / 0x100_0000_0000 % 0x100) == n % 0x1_0000_0000_0000
  {
    var a1 := n / 0x100; var a2 := a1 / 0x100; var a3 := a2 / 0x100; var a4 := a3 / 0x100; var a5 := a4 / 0x100;
    var a6 := a5 / 0x100;
    assert n / 0x1_0000 == a2 && n / 0x100_0000 == a3 && n / 0x1_0000_0000 == a4 && n / 0x100_0000_0000 == a5;
    assert n / 0x1_0000_0000_0000 == a6;
    assert n == n % 0x100 + 0x100 * a1 && a1 == a1 % 0x100 + 0x100 * a2 && a2 == a2 % 0x100 + 0x100 * a3;
    assert a3 == a3 % 0x100 + 0x100 * a4 && a4 == a4 % 0x100 + 0x100 * a5 && a5 == a5 % 0x100 + 0x100 * a6;
  }

  lemma PnModulo(pn: nat)
    ensures PnOf(CcmpHeader(pn)) == pn % 0x1_0000_0000_0000
  {
    hide Value, ToByte;
    ByteValue(pn); ByteValue(pn / 0x100); ByteValue(pn / 0x1_0000); ByteValue(pn / 0x100_0000);
    ByteValue(pn / 0x1_0000_0000); ByteValue(pn / 0x100_0000_0000);
    SixBytes(pn);
  }

  /** The receiver reads back the packet number exactly while it is below 2^48. */
  lemma PnRecovered(pn: nat)
    ensures PnOf(CcmpHeader(pn)) == pn <==> pn < 0x1_0000_0000_0000
  {
    hide PnOf, CcmpHeader;
    PnModulo(pn);
  }

  /** QoS data to the AP: header, CCMP header, LLC/SNAP with the Ethernet type, payload. */
  function AirFrame(eth: Octets, bssid: Mac, mac: Mac, pn: nat): (f: Octets)
    requires |eth| >= 14
    ensures |f| == |eth| + 28 && f[26..34] == CcmpHeader(pn)
  {
    var header := [0x88, 0x41, 0, 0] + bssid + mac + eth[..6] + [0, 0, 0, 0];
    assert |header| == 26;
    header + CcmpHeader(pn) + [0xaa, 0xaa, 0x03, 0, 0, 0, eth[12], eth[13]] + eth[14..]
  }

  /** What the access point reads back: addresses, the protocol, the payload and the packet number. */
  lemma AirFrameCarries(eth: Octets, bssid: Mac, mac: Mac, pn: nat)
    requires |eth| >= 14
    ensures var f := AirFrame(eth, bssid, mac, pn);
      && f[4..10] == bssid && f[10..16] == mac && f[16..22] == eth[..6]
      && f[40..42] == eth[12..14] && f[42..] == eth[14..]
      && PnOf(f[26..34]) == pn % 0x1_0000_0000_0000
  {
    hide CcmpHeader, PnOf;
    PnModulo(pn);
    var f := AirFrame(eth, bssid, mac, pn);
    assert f[16..22] == eth[..6];
    assert f[42..] == eth[14..];
  }

  /** What it says about the frame: QoS data of version 0 on TID 0, to the distribution system and not from
      it, protected, first fragment; a CCMP header with extended IV and key 0; LLC/SNAP with organisation 0. */
  lemma AirFrameSays(eth: Octets, bssid: Mac, mac: Mac, pn: nat)
    requires |eth| >= 14
    ensures var f := AirFrame(eth, bssid, mac, pn);
      && Value(f[0]) == 0 + 4 * 2 + 16 * 8 && f[1] & 0x01 != 0 && f[1] & 0x02 == 0 && f[1] & 0x40 != 0
      && f[1] & 0x3c == 0 && f[1] & 0x80 == 0 && f[22] & 0x0f == 0
      && f[24] == 0 && f[25] == 0 && f[28] == 0 && Value(f[29]) == 0 * 64 + 32
      && f[34..40] == [0xaa, 0xaa, 0x03, 0x00, 0x00, 0x00]
  {
    hide Value, ToByte;
    HeaderValues();
  }

  lemma HeaderValues()
    ensures Value(0x88) == 136 && Value(0x20) == 32 && (0x41 as Byte) & 0x3c == 0
    ensures (0x41 as Byte) & 0x01 != 0 && (0x41 as Byte) & 0x02 == 0 && (0x41 as Byte) & 0x40 != 0 && (0x41 as Byte) & 0x80 == 0
  {}

  /** A posted frame: an encrypted data frame with its packet number, or a management frame. */
  datatype Item = Data(eth: Octets, pn: nat) | Mgmt(frame: Octets)

  function OnAir(i: Item, bssid: Mac, mac: Mac): Octets {
    match i
    case Data(eth, pn) => if |eth| >= 14 then AirFrame(eth, bssid, mac, pn) else []
    case Mgmt(f) => f
  }
}
