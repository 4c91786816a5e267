/** From an in-order data MPDU to Ethernet frames, including A-MSDU de-aggregation
    (section 9.3.2.2 of IEEE Std 802.11-2020). */
module Amsdu {
  import opened Bytes

  type Mpdu = f: Octets | |f| >= 24 witness seq(24, _ => 0)

  const MAX_PAYLOAD := 1600

  predicate Qos(f: Mpdu) { f[0] & 0x80 != 0 && |f| >= 26 }
  predicate Aggregated(f: Mpdu) { Qos(f) && f[24] & 0x80 != 0 }

  /** Header length without an HT Control field: QoS control and the CCMP header counted. */
  function Base(f: Mpdu): nat { 24 + (if Qos(f) then 2 else 0) + (if f[1] & 0x40 != 0 then 8 else 0) }

  /** What the Order bit says about HT Control, and the other possibility. */
  function Implied(f: Mpdu): nat { Base(f) + if f[1] & 0x80 != 0 then 4 else 0 }
  function Other(f: Mpdu): nat { Base(f) + if f[1] & 0x80 != 0 then 0 else 4 }

  predicate Snap(f: Octets, i: nat)
    requires i + 3 <= |f|
  {
    f[i] == 0xaa && f[i + 1] == 0xaa && f[i + 2] == 0x03
  }

  /** Is there an MSDU, or a first A-MSDU subframe, at this offset? */
  predicate Plausible(f: Octets, amsdu: bool, at: nat) {
    if amsdu then
      at + 22 <= |f| && 8 <= Be16(f, at + 12) && at + 14 + Be16(f, at + 12) <= |f| && Snap(f, at + 14)
    else at + 8 <= |f| && Snap(f, at)
  }

  function Aligned(n: nat): nat { (n + 3) / 4 * 4 }

  /** The Ethernet frame of the subframe at `p`, if it is SNAP and not too long. */
  function Unpack(f: Octets, p: nat, sublen: nat): seq<Octets>
    requires 8 <= sublen && p + 14 + sublen <= |f|
  {
    if Snap(f, p + 14) && sublen - 8 <= MAX_PAYLOAD
    then [f[p..p + 12] + f[p + 20..p + 22] + f[p + 22..p + 14 + sublen]] else []
  }

  function Subframes(f: Octets, p: nat): seq<Octets>
    requires p <= |f|
    decreases |f| - p
  {
    if |f| - p < 14 then []
    else
      var sublen := Be16(f, p + 12);
      if sublen < 8 || p + 14 + sublen > |f| then []
      else
        Unpack(f, p, sublen) +
        if p + Aligned(14 + sublen) > |f| then [] else Subframes(f, p + Aligned(14 + sublen))
  }

  function Msdu(f: Mpdu, hdr: nat): seq<Octets>
    requires hdr + 8 <= |f|
  {
    if |f| - hdr - 8 > MAX_PAYLOAD then []
    else [f[4..10] + f[16..22] + f[hdr + 6..hdr + 8] + f[hdr + 8..]]
  }

  function At(f: Mpdu, hdr: nat): seq<Octets>
    requires Plausible(f, Aggregated(f), hdr)
  {
    if Aggregated(f) then Subframes(f, hdr) else Msdu(f, hdr)
  }

  /** The frames handed to the network stack. */
  function Deliver(f: Mpdu): seq<Octets> {
    if Plausible(f, Aggregated(f), Implied(f)) then At(f, Implied(f))
    else if Plausible(f, Aggregated(f), Other(f)) then At(f, Other(f))
    else []
  }

  /** Hand up one subframe. */
  method UnpackAt(f: Octets, p: nat, sublen: nat) returns (up: seq<Octets>)
    requires 8 <= sublen && p + 14 + sublen <= |f|
    ensures up == Unpack(f, p, sublen)
  {
    up := [];
    if Snap(f, p + 14) {
      var plen := sublen - 8;
      if plen <= MAX_PAYLOAD {
        assert f[p + 20..p + 22] == [f[p + 20], f[p + 21]];
        up := [f[p..p + 12] + [f[p + 20], f[p + 21]] + f[p + 22..p + 22 + plen]];
      }
    }
  }

  /** The subframe loop. Every read is inside the frame, and it ends on every input. */
  method DeAggregate(f: Octets, hdr: nat) returns (up: seq<Octets>)
    requires hdr <= |f|
    ensures up == Subframes(f, hdr)
  {
    hide Be16, Aligned, Unpack, Subframes;
    up := [];
    var p := hdr;
    while |f| - p >= 14
      invariant p <= |f| && up + Subframes(f, p) == Subframes(f, hdr)
      decreases |f| - p
    {
      var sublen := Be16(f, p + 12);
      if sublen < 8 || p + 14 + sublen > |f| {
        SubframesStop(f, p);
        return;
      }
      SubframesStep(f, p, sublen);
      AlignedBounds(14 + sublen);
      var here := UnpackAt(f, p, sublen);
      up := up + here;
      var adv := Aligned(14 + sublen);
      if p + adv > |f| { return; }
      p := p + adv;
    }
    SubframesEnd(f, p);
  }

  lemma SubframesStop(f: Octets, p: nat)
    requires p + 14 <= |f| && (Be16(f, p + 12) < 8 || p + 14 + Be16(f, p + 12) > |f|)
    ensures Subframes(f, p) == []
  {
    hide Be16;
  }

  /** The parser as written: find the header length, then split or copy. */
  method DeliverMpdu(f: Mpdu) returns (up: seq<Octets>)
    ensures up == Deliver(f)
  {
    hide Be16, Snap, Subframes, Base, Qos;
    up := [];
    var hdr;
    if Plausible(f, Aggregated(f), Implied(f)) { hdr := Implied(f); }
    else if Plausible(f, Aggregated(f), Other(f)) { hdr := Other(f); }
    else { return; }
    if Aggregated(f) {
      up := DeAggregate(f, hdr);
      return;
    }
    var plen := |f| - hdr - 8;
    if plen > MAX_PAYLOAD { return; }
    assert f[hdr + 6..hdr + 8] == [f[hdr + 6], f[hdr + 7]] && f[hdr + 8..hdr + 8 + plen] == f[hdr + 8..];
    up := [f[4..10] + f[16..22] + [f[hdr + 6], f[hdr + 7]] + f[hdr + 8..hdr + 8 + plen]];
  }

  // ------------------------------------------------ round trip

  /** What a sender aggregates: addresses, an LLC body, and padding to a multiple of four. */
  datatype Subframe = Subframe(da: Octets, sa: Octets, body: Octets, pad: Octets)

  ghost predicate WellFormed(s: Subframe) {
    |s.da| == 6 && |s.sa| == 6 && 8 <= |s.body| < 0x10000
  }

  /** The bytes that are missing to a multiple of four. */
  function Missing(s: Subframe): nat { (2 - |s.body|) % 4 }

  ghost predicate Padded(s: Subframe) { |s.pad| == Missing(s) }

  lemma MissingIs(s: Subframe)
    ensures Aligned(14 + |s.body|) == 14 + |s.body| + Missing(s) && Missing(s) < 4
  {
    var n := 14 + |s.body|;
    assert (n + 3) / 4 * 4 == n + 3 - (n + 3) % 4;
  }

  function Raw(s: Subframe): Octets { s.da + s.sa + PutBe16(|s.body|) + s.body }

  function Encode(ss: seq<Subframe>): Octets {
    if ss == [] then [] else Raw(ss[0]) + ss[0].pad + Encode(ss[1..])
  }

  predicate IsSnap(s: Subframe) { |s.body| >= 8 && s.body[..3] == [0xaa, 0xaa, 0x03] }

  /** The Ethernet frames a receiver should see: SNAP bodies of at most 1600 payload bytes. */
  function Frames(ss: seq<Subframe>): seq<Octets> {
    if ss == [] then [] else FrameOf(ss[0]) + Frames(ss[1..])
  }

  function FrameOf(s: Subframe): seq<Octets> {
    if IsSnap(s) && |s.body| - 8 <= 1600 then [s.da + s.sa + s.body[6..8] + s.body[8..]] else []
  }

  /** The last subframe may be unpadded and up to 13 bytes may follow. */
  ghost predicate Tail(s: Subframe, extra: Octets) {
    |s.pad| + |extra| < Missing(s) + 14
  }

  lemma ReadRaw(f: Octets, p: nat, s: Subframe, rest: Octets)
    requires WellFormed(s) && p <= |f| && f[p..] == Raw(s) + rest
    ensures p + 14 + |s.body| <= |f| && Be16(f, p + 12) == |s.body|
    ensures Snap(f, p + 14) <==> IsSnap(s)
    ensures Unpack(f, p, |s.body|) == FrameOf(s)
  {
    hide Value, PutBe16;
    var g, n := f[p..], |s.body|;
    RawParts(g, s, rest);
    PutBe16Value(n);
    SlicesBehind(f, p, 0, 12);
    SlicesBehind(f, p, 12, 14);
    SlicesBehind(f, p, 14, 14 + n);
    assert f[p + 12] == f[p + 12..p + 14][0] && f[p + 13] == f[p + 12..p + 14][1];
    assert f[p + 14] == s.body[0] && f[p + 15] == s.body[1] && f[p + 16] == s.body[2];
    assert f[p + 20..p + 22] == s.body[6..8] && f[p + 22..p + 14 + n] == s.body[8..];
    assert s.body[..3] == [s.body[0], s.body[1], s.body[2]];
  }

  /** Where the parts of a subframe lie. */
  lemma RawParts(g: Octets, s: Subframe, rest: Octets)
    requires WellFormed(s) && g == Raw(s) + rest
    ensures 14 + |s.body| <= |g| && g[0..12] == s.da + s.sa && g[12..14] == PutBe16(|s.body|)
    ensures g[14..14 + |s.body|] == s.body
  {
    hide PutBe16;
    assert g[14..14 + |s.body|] == s.body;
  }

  /** De-aggregating what was aggregated gives exactly the frames, in order. */
  lemma {:induction false} SubframesOfEncode(f: Octets, p: nat, ss: seq<Subframe>, extra: Octets)
    requires ss != [] && forall k :: 0 <= k < |ss| ==> WellFormed(ss[k])
    requires forall k :: 0 <= k < |ss| - 1 ==> Padded(ss[k])
    requires Tail(ss[|ss| - 1], extra)
    requires p <= |f| && f[p..] == Encode(ss) + extra
    ensures Subframes(f, p) == Frames(ss)
    decreases |ss|
  {
    hide Be16, Raw, FrameOf, Subframes, Aligned, Unpack;
    var s := ss[0];
    var after := s.pad + Encode(ss[1..]) + extra;
    FirstOf(ss, extra);
    ReadRaw(f, p, s, after);
    RawLength(s);
    MissingIs(s);
    AlignedBounds(14 + |s.body|);
    SubframesStep(f, p, |s.body|);
    var q := p + Aligned(14 + |s.body|);
    if |ss| > 1 {
      Regroup(Raw(s), s.pad, Encode(ss[1..]), extra);
      DropPrefix(f, p, Raw(s) + s.pad, Encode(ss[1..]) + extra);
      SubframesOfEncode(f, q, ss[1..], extra);
    } else {
      assert ss[1..] == [] && Encode(ss[1..]) == [];
      if q <= |f| { SubframesEnd(f, q); }
    }
  }

  lemma Regroup(a: Octets, b: Octets, c: Octets, d: Octets)
    ensures a + (b + c + d) == (a + b) + (c + d)
  {}

  lemma DropPrefix(f: Octets, p: nat, a: Octets, b: Octets)
    requires p <= |f| && f[p..] == a + b
    ensures p + |a| <= |f| && f[p + |a|..] == b
  {
    assert f[p + |a|..] == f[p..][|a|..];
  }

  lemma AlignedBounds(n: nat)
    ensures n <= Aligned(n) < n + 4
  {}

  lemma SubframesStep(f: Octets, p: nat, n: nat)
    requires 8 <= n && p + 14 + n <= |f| && Be16(f, p + 12) == n
    ensures Subframes(f, p) ==
      Unpack(f, p, n) + if p + Aligned(14 + n) > |f| then [] else Subframes(f, p + Aligned(14 + n))
  {
    hide Be16, Unpack, Aligned;
  }

  lemma SubframesEnd(f: Octets, q: nat)
    requires |f| - 14 < q <= |f|
    ensures Subframes(f, q) == []
  {}

  lemma RawLength(s: Subframe)
    requires WellFormed(s)
    ensures |Raw(s)| == 14 + |s.body|
  {}

  /** An aggregated MPDU whose header ends where the Order bit implies (or at the other
      offset, when nothing plausible is found there) is delivered subframe by subframe. */
  lemma AmsduRoundTrip(f: Mpdu, hdr: nat, ss: seq<Subframe>, extra: Octets)
    requires Aggregated(f) && hdr <= |f| && f[hdr..] == Encode(ss) + extra
    requires ss != [] && forall k :: 0 <= k < |ss| ==> WellFormed(ss[k])
    requires IsSnap(ss[0])
    requires forall k :: 0 <= k < |ss| - 1 ==> Padded(ss[k])
    requires Tail(ss[|ss| - 1], extra)
    requires hdr == Implied(f) || (hdr == Other(f) && !Plausible(f, true, Implied(f)))
    ensures Deliver(f) == Frames(ss)
  {
    hide Raw, Aggregated, Implied, Other, Plausible, Subframes, Frames, IsSnap, WellFormed, Padded, Tail;
    FirstPlausible(f, hdr, ss, extra);
    SubframesOfEncode(f, hdr, ss, extra);
  }

  lemma FirstPlausible(f: Octets, hdr: nat, ss: seq<Subframe>, extra: Octets)
    requires ss != [] && WellFormed(ss[0]) && IsSnap(ss[0]) && hdr <= |f| && f[hdr..] == Encode(ss) + extra
    ensures Plausible(f, true, hdr)
  {
    hide Be16, Raw, Snap, IsSnap;
    var s := ss[0];
    FirstOf(ss, extra);
    ReadRaw(f, hdr, s, s.pad + Encode(ss[1..]) + extra);
  }

  lemma FirstOf(ss: seq<Subframe>, extra: Octets)
    requires ss != []
    ensures Encode(ss) + extra == Raw(ss[0]) + (ss[0].pad + Encode(ss[1..]) + extra)
  {
    hide Raw;
  }

  /** The first subframe's bytes, seen from the header. */
  lemma FirstBytes(f: Octets, hdr: nat, ss: seq<Subframe>, extra: Octets, i: nat)
    requires ss != [] && WellFormed(ss[0]) && hdr <= |f| && f[hdr..] == Encode(ss) + extra && i < 14 + |ss[0].body|
    ensures hdr + 14 + |ss[0].body| <= |f| && f[hdr + i] == Raw(ss[0])[i]
  {
    hide Raw;
    RawLength(ss[0]);
    FirstOf(ss, extra);
    assert f[hdr..][i] == f[hdr + i];
  }

  lemma RawBytes(s: Subframe)
    requires WellFormed(s) && |s.body| >= 8
    ensures |Raw(s)| == 14 + |s.body|
    ensures Raw(s)[10] == s.sa[4] && Raw(s)[11] == s.sa[5] && Raw(s)[12] == PutBe16(|s.body|)[0]
    ensures Raw(s)[18] == s.body[4] && Raw(s)[19] == s.body[5] && Raw(s)[20] == s.body[6]
  {
    hide PutBe16;
  }

  /** The offset the Order bit wrongly implies can look like an A-MSDU only for odd first subframes:
      an organisation code that ends in the SNAP bytes, or a source address that ends in them with a
      length of 768 to 1023. */
  lemma MisreadNeeds(f: Mpdu, hdr: nat, ss: seq<Subframe>, extra: Octets)
    requires Aggregated(f) && hdr <= |f| && f[hdr..] == Encode(ss) + extra && hdr == Other(f)
    requires ss != [] && WellFormed(ss[0]) && IsSnap(ss[0]) && Plausible(f, true, Implied(f))
    ensures var s := ss[0];
      if f[1] & 0x80 != 0 then s.body[4] == 0xaa && s.body[5] == 0xaa && s.body[6] == 0x03
      else s.sa[4] == 0xaa && s.sa[5] == 0xaa && PutBe16(|s.body|)[0] == 0x03
  {
    hide Raw, Encode, PutBe16, Be16, Base, WellFormed, Aggregated;
    RawBytes(ss[0]);
    FirstBytes(f, hdr, ss, extra, 10); FirstBytes(f, hdr, ss, extra, 11); FirstBytes(f, hdr, ss, extra, 12);
    FirstBytes(f, hdr, ss, extra, 18); FirstBytes(f, hdr, ss, extra, 19); FirstBytes(f, hdr, ss, extra, 20);
  }

  /** The organisation code 00-00-00, and a source address that does not end in AA-AA. */
  predicate Usual(s: Subframe) {
    |s.body| >= 6 && s.body[3..6] == [0, 0, 0] && |s.sa| == 6 && !(s.sa[4] == 0xaa && s.sa[5] == 0xaa)
  }

  lemma UsualIsNotMisread(f: Mpdu, hdr: nat, ss: seq<Subframe>, extra: Octets)
    requires Aggregated(f) && hdr <= |f| && f[hdr..] == Encode(ss) + extra && hdr == Other(f)
    requires ss != [] && WellFormed(ss[0]) && IsSnap(ss[0]) && Usual(ss[0])
    ensures !Plausible(f, true, Implied(f))
  {
    hide Encode, Aggregated, Implied, Other, Plausible, PutBe16;
    assert ss[0].body[4] == ss[0].body[3..6][1];
    if Plausible(f, true, Implied(f)) { MisreadNeeds(f, hdr, ss, extra); }
  }

  /** So an aggregate whose first subframe is encapsulated with the usual organisation code 00-00-00,
      from an address that does not end in AA-AA, is delivered exactly, with or without HT Control
      and whatever the Order bit says. */
  lemma UsualAmsduSurvives(f: Mpdu, hdr: nat, ss: seq<Subframe>, extra: Octets)
    requires Aggregated(f) && hdr <= |f| && f[hdr..] == Encode(ss) + extra
    requires ss != [] && forall k :: 0 <= k < |ss| ==> WellFormed(ss[k])
    requires IsSnap(ss[0]) && forall k :: 0 <= k < |ss| - 1 ==> Padded(ss[k])
    requires Tail(ss[|ss| - 1], extra)
    requires hdr == Implied(f) || hdr == Other(f)
    requires Usual(ss[0])
    ensures Deliver(f) == Frames(ss)
  {
    hide Encode, Aggregated, Implied, Other, Plausible, Deliver, Frames, WellFormed, Padded, Tail, IsSnap, Usual;
    if hdr == Other(f) { UsualIsNotMisread(f, hdr, ss, extra); }
    AmsduRoundTrip(f, hdr, ss, extra);
  }

  /** The addresses with which the first frame of a reading begins. */
  lemma FirstAddresses(f: Octets, at: nat)
    requires Plausible(f, true, at) && Be16(f, at + 12) - 8 <= MAX_PAYLOAD
    ensures Subframes(f, at) != [] && |Subframes(f, at)[0]| >= 12 && Subframes(f, at)[0][..12] == f[at..at + 12]
  {
    hide Be16;
  }

  lemma FirstSent(ss: seq<Subframe>)
    requires ss != [] && WellFormed(ss[0]) && IsSnap(ss[0]) && |ss[0].body| - 8 <= MAX_PAYLOAD
    ensures Frames(ss) != [] && |Frames(ss)[0]| >= 12 && Frames(ss)[0][..12] == ss[0].da + ss[0].sa
  {}

  /** Otherwise it depends on the wrong reading: as long as both readings begin with a subframe of at
      most 1600 payload bytes and with different addresses, what was sent is delivered if and only if
      the header ends where the Order bit implies or nothing there looks like an A-MSDU. */
  lemma AmsduExactly(f: Mpdu, hdr: nat, ss: seq<Subframe>, extra: Octets)
    requires Aggregated(f) && hdr <= |f| && f[hdr..] == Encode(ss) + extra
    requires ss != [] && forall k :: 0 <= k < |ss| ==> WellFormed(ss[k])
    requires IsSnap(ss[0]) && forall k :: 0 <= k < |ss| - 1 ==> Padded(ss[k])
    requires Tail(ss[|ss| - 1], extra)
    requires hdr == Implied(f) || hdr == Other(f)
    requires |ss[0].body| - 8 <= 1600
    requires hdr != Implied(f) && Plausible(f, true, Implied(f)) ==>
      Be16(f, Implied(f) + 12) - 8 <= 1600 && f[Implied(f)..Implied(f) + 12] != ss[0].da + ss[0].sa
    ensures Deliver(f) == Frames(ss) <==> hdr == Implied(f) || !Plausible(f, true, Implied(f))
  {
    hide Encode, Aggregated, Implied, Other, Plausible, Frames, Subframes, WellFormed, Padded, Tail, Be16, IsSnap;
    if hdr != Implied(f) && Plausible(f, true, Implied(f)) {
      PlausibleFits(f, true, Implied(f));
      FirstAddresses(f, Implied(f));
      FirstSent(ss);
    } else {
      AmsduRoundTrip(f, hdr, ss, extra);
    }
  }

  lemma PlausibleFits(f: Octets, amsdu: bool, at: nat)
    requires Plausible(f, amsdu, at)
    ensures at + 8 <= |f|
  {}

  // ------------------------------------------------ one MSDU per MPDU

  /** A data MPDU with one SNAP-encoded MSDU: control fields, addresses, and the optional QoS
      control (2 bytes), HT Control (4) and CCMP header (8). */
  datatype Plain = Plain(fc0: Byte, fc1: Byte, dur: Octets, a1: Mac, a2: Mac, a3: Mac, seqctl: Octets,
    qos: Octets, htc: Octets, ccmp: Octets, oui: Octets, proto: Octets, payload: Octets)

  ghost predicate PlainOk(m: Plain) {
    && |m.dur| == |m.seqctl| == |m.proto| == 2 && |m.oui| == 3
    && |m.qos| == (if m.fc0 & 0x80 != 0 then 2 else 0) && (m.qos != [] ==> m.qos[0] & 0x80 == 0)
    && |m.ccmp| == (if m.fc1 & 0x40 != 0 then 8 else 0) && (|m.htc| == 0 || |m.htc| == 4)
  }

  function PlainHeader(m: Plain): Octets {
    FixedHeader(m) + (m.qos + m.htc + m.ccmp)
  }

  function PlainFrame(m: Plain): Octets {
    PlainHeader(m) + ([0xaa, 0xaa, 0x03] + m.oui + m.proto + m.payload)
  }

  /** The Ethernet frame a receiver should see. */
  function EthernetOf(m: Plain): Octets { m.a1 + m.a3 + m.proto + m.payload }

  lemma TwoParts(a: Octets, b: Octets)
    ensures (a + b)[..|a|] == a && (a + b)[|a|..] == b
  {}

  lemma Front(a: Octets, b: Octets, c: Octets)
    ensures a + b + c == a + (b + c)
  {}

  lemma Slices(f: Octets, n: nat, i: nat, j: nat)
    requires i <= j <= n <= |f|
    ensures f[..n][i..j] == f[i..j]
  {}

  lemma SlicesBehind(f: Octets, n: nat, i: nat, j: nat)
    requires i <= j && n + j <= |f|
    ensures f[n..][i..j] == f[n + i..n + j]
  {}

  function FixedHeader(m: Plain): Octets { [m.fc0, m.fc1] + m.dur + m.a1 + m.a2 + m.a3 + m.seqctl }

  lemma FixedAt(m: Plain)
    requires |m.dur| == |m.seqctl| == 2
    ensures var h := FixedHeader(m);
      |h| == 24 && h[0] == m.fc0 && h[1] == m.fc1 && h[4..10] == m.a1 && h[16..22] == m.a3
  {}

  lemma BodyParts(m: Plain)
    requires |m.proto| == 2 && |m.oui| == 3
    ensures var b := [0xaa, 0xaa, 0x03] + m.oui + m.proto + m.payload;
      |b| == 8 + |m.payload| && b[0] == 0xaa && b[1] == 0xaa && b[2] == 0x03 && b[6..8] == m.proto && b[8..] == m.payload
  {}

  lemma HeaderAt(m: Plain, f: Octets)
    requires PlainOk(m) && f == PlainFrame(m)
    ensures var h := |PlainHeader(m)|;
      && 24 <= h && h + 8 + |m.payload| == |f| && h == 24 + |m.qos| + |m.htc| + |m.ccmp|
      && f[0] == m.fc0 && f[1] == m.fc1 && f[4..10] == m.a1 && f[16..22] == m.a3
      && (m.qos != [] ==> f[24] == m.qos[0])
  {
    var front, opt, body := FixedHeader(m), m.qos + m.htc + m.ccmp, [0xaa, 0xaa, 0x03] + m.oui + m.proto + m.payload;
    FixedAt(m);
    hide FixedHeader;
    assert f == front + opt + body;
    Front(front, opt, body);
    TwoParts(front, opt + body);
    assert f[..24][0] == f[0] && f[..24][1] == f[1];
    Slices(f, 24, 4, 10);
    Slices(f, 24, 16, 22);
    if m.qos != [] { assert f[24] == (opt + body)[0] == opt[0] == m.qos[0]; }
  }

  lemma BodyAt(m: Plain, f: Octets)
    requires PlainOk(m) && f == PlainFrame(m)
    ensures var h := |PlainHeader(m)|;
      h + 8 <= |f| && Snap(f, h) && f[h + 6..h + 8] == m.proto && f[h + 8..] == m.payload
  {
    var h, body := |PlainHeader(m)|, [0xaa, 0xaa, 0x03] + m.oui + m.proto + m.payload;
    BodyParts(m);
    hide PlainHeader;
    TwoParts(PlainHeader(m), body);
    assert f[h..][0] == f[h] && f[h..][1] == f[h + 1] && f[h..][2] == f[h + 2];
    SlicesBehind(f, h, 6, 8);
    assert f[h..][8..] == f[h + 8..];
  }

  lemma PlainOffsets(m: Plain, f: Mpdu)
    requires PlainOk(m) && f == PlainFrame(m)
    ensures !Aggregated(f) && Plausible(f, false, |PlainHeader(m)|)
    ensures |PlainHeader(m)| == Implied(f) || |PlainHeader(m)| == Other(f)
    ensures |PlainHeader(m)| + 8 + |m.payload| == |f|
    ensures Msdu(f, |PlainHeader(m)|) == if |m.payload| > MAX_PAYLOAD then [] else [EthernetOf(m)]
  {
    hide PlainFrame, PlainHeader, Snap;
    HeaderAt(m, f);
    BodyAt(m, f);
  }

  /** Where the Order bit says that the LLC header begins, and whether there is one. */
  predicate Misleads(m: Plain, f: Octets) {
    var at := 24 + |m.qos| + |m.ccmp| + if m.fc1 & 0x80 != 0 then 4 else 0;
    && (m.htc != []) != (m.fc1 & 0x80 != 0)
    && at + 8 <= |f| && f[at] == 0xaa && f[at + 1] == 0xaa && f[at + 2] == 0x03
  }

  lemma MisleadsIs(m: Plain, f: Mpdu)
    requires PlainOk(m) && f == PlainFrame(m)
    ensures Misleads(m, f) <==> |PlainHeader(m)| != Implied(f) && Plausible(f, false, Implied(f))
  {
    hide PlainFrame, PlainHeader;
    HeaderAt(m, f);
  }

  /** An ordinary MPDU, QoS or not, protected or not, with or without HT Control and whatever the
      Order bit says, gives exactly its Ethernet frame unless the Order bit is wrong about HT Control and
      there is an LLC header where it says; more than 1600 bytes give nothing. */
  lemma MsduRoundTrip(m: Plain, f: Mpdu)
    requires PlainOk(m) && f == PlainFrame(m)
    ensures |m.payload| <= 1600 ==> (Deliver(f) == [EthernetOf(m)] <==> !Misleads(m, f))
    ensures |m.payload| > 1600 && !Misleads(m, f) ==> Deliver(f) == []
  {
    hide PlainFrame, PlainHeader, PlainOk, Aggregated, Snap, Implied, Other, Misleads;
    PlainOffsets(m, f);
    ProtoSize(m);
    MisleadsIs(m, f);
    if |PlainHeader(m)| != Implied(f) && Plausible(f, false, Implied(f)) {
      WrongOffset(m, f, Implied(f));
    }
  }

  lemma ProtoSize(m: Plain)
    requires PlainOk(m)
    ensures |m.proto| == 2
  {}

  /** The other reading of the header never gives the right frame: its length differs. */
  lemma WrongOffset(m: Plain, f: Mpdu, at: nat)
    requires at + 8 <= |f| && at + 8 + |m.payload| != |f| && |m.proto| == 2
    ensures Msdu(f, at) != [EthernetOf(m)]
  {
    if |f| - at - 8 <= MAX_PAYLOAD {
      assert |Msdu(f, at)[0]| == 14 + (|f| - at - 8);
      assert |EthernetOf(m)| == 12 + |m.proto| + |m.payload|;
    }
  }
}
