/** The receive thread: eight reorder windows, each an object with its own slot arrays. */
module RxEngines {
  import opened Bytes
  import opened SeqNum
  import opened ReorderSpec
  import opened ReorderRuns
  import opened ReorderTids
  import opened RxDispatch
  import opened RxRuns

  /** The objects a TID owns. */
  ghost function Foot(t: ReorderTid): (s: set<object>)
    reads t
    ensures t in s
  {
    {t, t.occ, t.len, t.tns} + if t.store == null then {} else {t.store}
  }

  /** The window a TID object stands for. */
  ghost predicate Shows(t: ReorderTid, w: Tid<Octets>)
    reads t, Foot(t)
  {
    t.Valid() && t.Abs() == w
  }

  method NewTid() returns (t: ReorderTid)
    ensures fresh(Foot(t)) && Shows(t, Initial())
  {
    t := new ReorderTid();
  }

  method OfferOne(t: ReorderTid, ghost w: Tid<Octets>, sn: Sn, f: RxFrame, now: nat)
    requires Shows(t, w)
    modifies Foot(t)
    ensures Shows(t, Step(w, Frame(sn, f, now, true))) && Foot(t) == old(Foot(t))
  {
    hide ReorderTid.Valid, ReorderTid.Abs, ReorderTid.Sound, ReorderSpec.Insert;
    Opened(t, w);
    t.Offer(sn, f, now);
  }

  method SetUpOne(t: ReorderTid, ghost w: Tid<Octets>, ssn: Sn, win: nat, allocOk: bool)
    requires Shows(t, w)
    modifies Foot(t)
    ensures Shows(t, Step(w, Event.Addba(ssn, win, allocOk))) && fresh(Foot(t) - old(Foot(t)))
  {
    hide ReorderTid.Valid, ReorderTid.Abs, ReorderTid.Sound, ReorderSpec.Activate;
    Opened(t, w);
    t.Activate(ssn, win, allocOk);
  }

  method TearDownOne(t: ReorderTid, ghost w: Tid<Octets>)
    requires Shows(t, w)
    modifies Foot(t)
    ensures Shows(t, Step(w, Delba)) && fresh(Foot(t) - old(Foot(t)))
  {
    hide ReorderTid.Valid, ReorderTid.Abs, ReorderTid.Sound, ReorderSpec.Deactivate;
    Opened(t, w);
    t.Deactivate();
  }

  method SweepOne(t: ReorderTid, ghost w: Tid<Octets>, now: nat) returns (released: nat)
    requires Shows(t, w)
    modifies Foot(t)
    ensures Shows(t, Step(w, Tick(now))) && Foot(t) == old(Foot(t)) && |Step(w, Tick(now)).log| == |w.log| + released
  {
    hide ReorderTid.Valid, ReorderTid.Abs, ReorderTid.Sound, Tidy;
    Opened(t, w);
    released := t.SweepIfBusy(now);
    Opened(t, Step(w, Tick(now)));
  }

  lemma Opened(t: ReorderTid, w: Tid<Octets>)
    requires Shows(t, w)
    ensures t.Valid() && t.Sound() && t.Abs() == w && t.log == w.log
  {
    WfIsOpen(w);
  }

  class RxEngine {
    const tids: seq<ReorderTid>
    const bssid: Mac
    const mac: Mac
    ghost var windows: seq<Tid<Octets>>
    ghost var passed: seq<Octets>
    ghost var replies: seq<Octets>
    ghost var repr: set<object>  // what the eight TIDs own

    /** Each TID object shows its window. */
    ghost predicate Showing()
      reads this, repr
    {
      && |tids| == |windows| == TID_NUM
      && forall i :: 0 <= i < TID_NUM ==> tids[i] in repr && Foot(tids[i]) <= repr && Shows(tids[i], windows[i])
    }

    /** No two TIDs share an object. */
    ghost predicate Separate()
      reads tids
    {
      && (forall i, j :: 0 <= i < j < |tids| ==> Foot(tids[i]) !! Foot(tids[j]))
    }

    ghost predicate Valid()
      reads this, repr
      ensures Valid() ==> |tids| == |windows| == TID_NUM && this !in repr
    {
      this !in repr && Showing() && Separate()
    }

    twostate predicate Same(t: ReorderTid)
      reads t, Foot(t)
    {
      unchanged(t) && unchanged(t.occ) && unchanged(t.len) && unchanged(t.tns) && (old(t.store) != null ==> unchanged(old(t.store)))
    }

    twostate lemma StillSeparate(k: TidNo)
      requires |tids| == TID_NUM && old(Separate()) && fresh(Foot(tids[k]) - old(Foot(tids[k])))
      requires forall i :: 0 <= i < TID_NUM && i != k ==> Foot(tids[i]) == old(Foot(tids[i]))
      ensures Separate()
    {
      forall i, j | 0 <= i < j < |tids| ensures Foot(tids[i]) !! Foot(tids[j]) {
        assert old(Foot(tids[i])) !! old(Foot(tids[j]));
      }
    }

    /** A TID that an operation on another TID left alone keeps its objects and its window. */
    twostate lemma KeptAt(i: TidNo)
      requires old(Valid()) && |windows| == TID_NUM && windows[i] == old(windows[i]) && Same(tids[i])
      ensures Foot(tids[i]) == old(Foot(tids[i])) && Shows(tids[i], windows[i])
    {
      hide Separate, ReorderTid.Values, ReorderTid.Sound;
      assert old(Shows(tids[i], windows[i]));
    }

    /** An operation on TID k alone keeps the other seven windows and keeps all apart. */
    twostate lemma OthersKept(k: TidNo)
      requires old(Valid()) && |windows| == TID_NUM && repr == old(repr) + Foot(tids[k]) && this !in repr
      requires Shows(tids[k], windows[k]) && fresh(Foot(tids[k]) - old(Foot(tids[k])))
      requires forall i :: 0 <= i < TID_NUM && i != k ==> Same(tids[i]) && windows[i] == old(windows[i])
      ensures Valid()
    {
      hide Shows, Same, Separate, Foot;
      forall i: TidNo | i != k ensures Foot(tids[i]) == old(Foot(tids[i])) && Shows(tids[i], windows[i]) { KeptAt(i); }
      StillSeparate(k);
    }

    constructor (bssid: Mac, mac: Mac)
      ensures Valid() && windows == Fresh() && passed == replies == [] && fresh(repr)
    {
      hide Shows;
      this.bssid, this.mac, passed, replies := bssid, mac, [], [];
      var ts: seq<ReorderTid> := [];
      ghost var all: set<object> := {};
      for i := 0 to TID_NUM
        invariant |ts| == i && forall k :: 0 <= k < i ==> Foot(ts[k]) <= all && Shows(ts[k], Initial())
        invariant fresh(all)
        invariant forall k, m :: 0 <= k < m < i ==> Foot(ts[k]) !! Foot(ts[m])
      {
        var t := NewTid();
        ts := ts + [t];
        all := all + Foot(t);
      }
      tids := ts;
      windows, repr := Fresh(), all;
      new;
      assert Separate();
      assert Showing();
    }

    /** A frame for a TID: through its window if there is a session, else straight up. */
    method OfferTo(k: TidNo, sn: Sn, f: RxFrame, now: nat)
      requires Valid()
      modifies this`windows, this`repr, repr
      ensures Valid() && windows == old(windows)[k := Step(old(windows)[k], Frame(sn, f, now, true))]
      ensures fresh(repr - old(repr))
    {
      hide Shows, Step;
      OfferOne(tids[k], windows[k], sn, f, now);
      repr := repr + Foot(tids[k]);
      windows := windows[k := Step(windows[k], Frame(sn, f, now, true))];
      OthersKept(k);
    }

    /** ADDBA: only this TID's window is flushed and restarted. */
    method SetUpTo(k: TidNo, ssn: Sn, win: nat, allocOk: bool)
      requires Valid()
      modifies this`windows, this`repr, repr
      ensures Valid() && windows == old(windows)[k := Step(old(windows)[k], Event.Addba(ssn, win, allocOk))]
      ensures fresh(repr - old(repr))
    {
      hide Shows, Step;
      SetUpOne(tids[k], windows[k], ssn, win, allocOk);
      repr := repr + Foot(tids[k]);
      windows := windows[k := Step(windows[k], Event.Addba(ssn, win, allocOk))];
      OthersKept(k);
    }

    method TearDownTo(k: TidNo)
      requires Valid()
      modifies this`windows, this`repr, repr
      ensures Valid() && windows == old(windows)[k := Step(old(windows)[k], Delba)]
      ensures fresh(repr - old(repr))
    {
      hide Shows, Step;
      TearDownOne(tids[k], windows[k]);
      repr := repr + Foot(tids[k]);
      windows := windows[k := Step(windows[k], Delba)];
      OthersKept(k);
    }

    /** The sweep of one TID. */
    method SweepTo(k: TidNo, now: nat) returns (released: nat)
      requires Valid()
      modifies this`windows, this`repr, repr
      ensures Valid() && windows == old(windows)[k := Step(old(windows)[k], Tick(now))]
      ensures fresh(repr - old(repr)) && |windows[k].log| == |old(windows[k].log)| + released
    {
      hide Shows, Step;
      released := SweepOne(tids[k], windows[k], now);
      repr := repr + Foot(tids[k]);
      windows := windows[k := Step(windows[k], Tick(now))];
      OthersKept(k);
    }

    /** deliverMpdu, around the windows. */
    method PassOn(f: Octets)
      requires Valid()
      modifies this`passed
      ensures Valid() && repr == old(repr) && passed == old(passed) + [f]
    {
      passed := passed + [f];
    }

    /** txAction. */
    method Answer(r: Octets)
      requires Valid()
      modifies this`replies
      ensures Valid() && repr == old(repr) && replies == old(replies) + [r]
    {
      replies := replies + [r];
    }

    /** rxFrame: the addressed TID makes its step, the other seven keep their windows. */
    method RxFrame(f: RxFrame, now: nat, allocOk: bool)
      requires Valid()
      modifies this`windows, this`passed, this`replies, this`repr, repr
      ensures Valid() && fresh(repr - old(repr))
      ensures windows == Moved(old(windows), Received(f, now, allocOk))
      ensures passed == old(passed) + PassedUp(Received(f, now, allocOk))
      ensures replies == old(replies) + Replies(Received(f, now, allocOk), bssid, mac)
    {
      hide Valid, Foot, Step, Classify, AddbaResponse;
      match Classify(f)
      case SetUp(tid, ssn, win, rq) =>
        Answer(AddbaResponse(rq, bssid, mac));
        SetUpTo(tid, ssn, win, allocOk);
      case TearDown(tid) =>
        TearDownTo(tid);
      case Reorder(tid, sn) =>
        OfferTo(tid, sn, f, now);
      case PassUp =>
        PassOn(f);
      case Ignore =>
    }

    /** reorderTimeoutAll: every TID makes its sweep; returns how many frames were released. */
    method TimeoutAll(now: nat) returns (released: nat)
      requires Valid()
      modifies this`windows, this`repr, repr
      ensures Valid() && fresh(repr - old(repr))
      ensures windows == Moved(old(windows), Sweeping(now))
      ensures released == LogSize(windows, TID_NUM) - LogSize(old(windows), TID_NUM)
    {
      hide Valid, Foot, Step, LogSize;
      released := 0;
      for k := 0 to TID_NUM
        invariant Valid() && fresh(repr - old(repr))
        invariant forall t :: 0 <= t < k ==> windows[t] == Step(old(windows)[t], Tick(now))
        invariant forall t :: k <= t < TID_NUM ==> windows[t] == old(windows)[t]
        invariant released == LogSize(windows, TID_NUM) - LogSize(old(windows), TID_NUM)
      {
        LogSizeUpdate(windows, k, Step(windows[k], Tick(now)), TID_NUM);
        var r := SweepTo(k, now);
        released := released + r;
      }
    }
  }

  /** How many frames the first n windows have handed up. */
  ghost function LogSize(ws: seq<Tid<Octets>>, n: nat): nat
    requires n <= |ws|
  {
    if n == 0 then 0 else LogSize(ws, n - 1) + |ws[n - 1].log|
  }

  lemma {:induction false} LogSizeUpdate(ws: seq<Tid<Octets>>, k: nat, w: Tid<Octets>, n: nat)
    requires k < |ws| && n <= |ws|
    ensures LogSize(ws[k := w], n) == LogSize(ws, n) + if k < n then |w.log| - |ws[k].log| else 0
  {
    if n > 0 { LogSizeUpdate(ws, k, w, n - 1); }
  }

  /** Any sequence of inputs, from a fresh thread: every one of the eight windows has made
      exactly its own run; frames passed around the windows and ADDBA responses are in order. */
  method Serve(e: RxEngine, ins: seq<Input>)
    requires e.Valid() && e.windows == Fresh() && e.passed == e.replies == []
    modifies e, e.repr
    ensures e.Valid() && e.windows == MovedAll(Fresh(), ins)
    ensures forall t: TidNo :: e.windows[t] == Run(Initial(), Project(t, ins)) && Safe(e.windows[t])
    ensures e.passed == AllPassedUp(ins) && e.replies == AllReplies(ins, e.bssid, e.mac)
  {
    hide RxEngine.Valid, Foot, Run, Moved, Safe, Classify, AddbaResponse, Project;
    for n := 0 to |ins|
      invariant e.Valid() && fresh(e.repr - old(e.repr))
      invariant e.windows == MovedAll(Fresh(), ins[..n])
      invariant e.passed == AllPassedUp(ins[..n]) && e.replies == AllReplies(ins[..n], e.bssid, e.mac)
    {
      assert ins[..n + 1][..n] == ins[..n] && ins[..n + 1][n] == ins[n];
      match ins[n] {
        case Received(f, now, ok) => e.RxFrame(f, now, ok);
        case Sweeping(now) => var _ := e.TimeoutAll(now);
      }
    }
    assert ins[..|ins|] == ins;
    forall t: TidNo ensures e.windows[t] == Run(Initial(), Project(t, ins)) && Safe(e.windows[t]) { TidsIndependent(t, ins); }
  }
}
