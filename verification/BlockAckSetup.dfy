/** From the ADDBA exchange to the safety of the session: the originator that keeps to the buffer
    size it was advertised loses nothing. */
module BlockAckSetup {
  import opened Bytes
  import opened SeqNum
  import opened ReorderSpec
  import opened ReorderRuns
  import opened RxDispatch
  import opened BlockAck

  /** An accepted ADDBA, in any state the engine can be in, starts an agreed session at the number
      asked for, with the window asked for up to 64. */
  lemma AddbaStartsSession<F(!new)>(s: Tid<F>, ssn: Sn, win: nat, allocOk: bool, sent: set<int>)
    requires Safe(s) && (s.active || allocOk) && forall x :: x in sent ==> x < ssn
    ensures Agreed(Link(ssn, sent, Step(s, Event.Addba(ssn, win, allocOk))), Clamp(win))
  {
    hide Ordered, AllBefore;
    EndSafe(s, Event.Addba(ssn, win, allocOk));
  }

  /** The buffer size an originator reads in our response to its request. */
  function Advertised(rq: Addba, bssid: Mac, mac: Mac): nat {
    ParamBufSize(ParseReply(AddbaResponse(rq, bssid, mac)).param)
  }

  lemma AdvertisedIsActivated(f: RxFrame, bssid: Mac, mac: Mac)
    requires Classify(f).SetUp?
    ensures var a := Classify(f);
      a.win == Advertised(a.reply, bssid, mac) && a.ssn == a.reply.ssn && 1 <= a.win <= 64
  {
    hide ParseReply, AddbaResponse, ParamBufSize, Value;
    AddbaAgreement(f, bssid, mac);
  }

  /** A session set up by a received request: while the originator keeps to the advertised size and
      no hole times out, a frame in play is dropped as stale only if it was delivered, as duplicate
      only if it is buffered, and is otherwise kept. */
  lemma AdvertisedWindowIsSafe(f: RxFrame, bssid: Mac, mac: Mac, s: Tid<Octets>, allocOk: bool, sent: set<int>,
      size: nat, payload: int -> Octets, ms: seq<Move>, x: int, now: nat)
    requires Classify(f).SetUp? && Safe(s) && (s.active || allocOk) && forall y :: y in sent ==> y < Classify(f).ssn
    requires size <= Advertised(Classify(f).reply, bssid, mac)
    requires var a := Classify(f);
      var l := Link(a.ssn, sent, Step(s, Event.Addba(a.ssn, a.win, allocOk)));
      Legal(l, size, payload, ms) && Allowed(Play(l, payload, ms), size, Arrive(x, now)) && Play(l, payload, ms).w <= x
    ensures var a := Classify(f);
      var l := Link(a.ssn, sent, Step(s, Event.Addba(a.ssn, a.win, allocOk)));
      var r := Play(l, payload, ms).r;
      var t := Step(r, Frame(Wrap(x), payload(x), now, true));
      && (t.stale != r.stale ==> Received(r, payload, x))
      && (t.dups != r.dups ==> x in r.buf)
      && (Received(t, payload, x) || (x in t.buf && t.buf[x].frame == payload(x)))
  {
    hide Classify, Advertised, Step, Play, Legal, Allowed, Agreed, Safe, Received;
    var a := Classify(f);
    AdvertisedIsActivated(f, bssid, mac);
    AddbaStartsSession(s, a.ssn, a.win, allocOk, sent);
    InPlayIsSafe(Link(a.ssn, sent, Step(s, Event.Addba(a.ssn, a.win, allocOk))), a.win, size, payload, ms, x, now);
  }
}
