/** An aggregated MPDU written field by field (sections 9.2.4 and 9.3.2.2 of IEEE Std 802.11-2020)
    is delivered subframe by subframe. */
module AmsduFields {
  import opened Bytes
  import opened RxFields
  import opened Amsdu

  /** The optional parts behind the QoS control field, and what follows the last subframe. */
  datatype Aggregate = Aggregate(h: Header, q: Qos, htc: Octets, ccmp: Octets, ss: seq<Subframe>, extra: Octets)

  /** A QoS data frame with the A-MSDU bit set, its CCMP header there exactly when the Protected bit says so,
      and with HT Control or without. */
  ghost predicate Fields(a: Aggregate) {
    && HeaderOk(a.h) && QosOk(a.q) && a.h.kind == 2 && a.h.subtype >= 8 && a.q.amsdu == 1
    && |a.ccmp| == (if a.h.flags & 0x40 != 0 then 8 else 0) && (|a.htc| == 0 || |a.htc| == 4)
  }

  /** Subframes of the standard: padded to multiples of four but for the last, the first one SNAP. */
  ghost predicate Body(a: Aggregate) {
    && a.ss != [] && (forall k :: 0 <= k < |a.ss| ==> WellFormed(a.ss[k])) && IsSnap(a.ss[0])
    && (forall k :: 0 <= k < |a.ss| - 1 ==> Padded(a.ss[k])) && Tail(a.ss[|a.ss| - 1], a.extra)
  }

  function HeadOf(a: Aggregate): Octets { HeaderBytes(a.h) + (QosBytes(a.q) + a.htc + a.ccmp) }

  function AirBytes(a: Aggregate): Octets { HeadOf(a) + (Encode(a.ss) + a.extra) }

  lemma HeadLength(a: Aggregate)
    requires Fields(a)
    ensures |HeadOf(a)| == 26 + |a.htc| + |a.ccmp|
  {
    hide FrameControl, PutLe16;
  }

  /** The parser sees the A-MSDU bit and takes one of its two offsets for the subframes. */
  lemma ReadsFields(a: Aggregate, f: Mpdu)
    requires Fields(a) && f == AirBytes(a)
    ensures var n := 26 + |a.htc| + |a.ccmp|;
      && Aggregated(f) && n <= |f| && f[n..] == Encode(a.ss) + a.extra && f[1] == a.h.flags
      && n == (if (a.htc != []) == (a.h.flags & 0x80 != 0) then Implied(f) else Other(f))
  {
    hide HeaderBytes, Encode, QosControl, FrameControl;
    HeadLength(a);
    var opt := QosBytes(a.q) + a.htc + a.ccmp;
    assert f == HeaderBytes(a.h) + (opt + (Encode(a.ss) + a.extra));
    RxFields.HeaderAt(a.h, f, opt + (Encode(a.ss) + a.extra));
    assert f[24] == f[24..][0] == QosControl(a.q.tid, a.q.eosp, a.q.ack, a.q.amsdu);
    FrameControlBits(a.h.kind, a.h.subtype);
    QosControlBits(a.q.tid, a.q.eosp, a.q.ack, a.q.amsdu);
  }

  /** Every aggregate, on any TID, protected or not, is delivered exactly: always when the Order bit tells
      whether HT Control is there, and otherwise too when the first subframe is an ordinary one. */
  lemma AggregateDelivered(a: Aggregate, f: Mpdu)
    requires Fields(a) && Body(a) && f == AirBytes(a)
    requires (a.htc != []) == (a.h.flags & 0x80 != 0) || Usual(a.ss[0])
    ensures Deliver(f) == Frames(a.ss)
  {
    hide AirBytes, Encode, Aggregated, Implied, Other, Plausible, Deliver, Frames, WellFormed, Padded, Tail, IsSnap, Usual;
    ReadsFields(a, f);
    var n := 26 + |a.htc| + |a.ccmp|;
    if (a.htc != []) == (a.h.flags & 0x80 != 0) {
      AmsduRoundTrip(f, n, a.ss, a.extra);
    } else {
      UsualAmsduSurvives(f, n, a.ss, a.extra);
    }
  }
}
