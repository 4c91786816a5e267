/** Runs of the receive thread over eight reorder windows: frame dispatch and the sweep. */
module RxRuns {
  import opened Bytes
  import opened ReorderSpec
  import opened ReorderRuns
  import opened RxDispatch

  /** One pass of the receive loop: a received frame, or the sweep that ends every pass. */
  datatype Input = Received(f: RxFrame, now: nat, allocOk: bool) | Sweeping(now: nat)

  /** What an input means to one TID, if anything. A frame of the receive ring always fits a slot. */
  function EventFor(t: TidNo, i: Input): seq<Event<Octets>> {
    match i
    case Sweeping(now) => [Tick(now)]
    case Received(f, now, ok) =>
      match Classify(f)
      case SetUp(tid, ssn, win, _) => if tid == t then [Event.Addba(ssn, win, ok)] else []
      case TearDown(tid) => if tid == t then [Delba] else []
      case Reorder(tid, sn) => if tid == t then [Frame(sn, f, now, true)] else []
      case _ => []
  }

  /** The events of one TID in a run of the receive thread. */
  function Project(t: TidNo, ins: seq<Input>): seq<Event<Octets>> {
    if ins == [] then [] else Project(t, ins[..|ins| - 1]) + EventFor(t, ins[|ins| - 1])
  }

  /** The state of one TID after an input. */
  function Stepped(s: Tid<Octets>, t: TidNo, i: Input): Tid<Octets> {
    var es := EventFor(t, i);
    if |es| == 0 then s else Step(s, es[0])
  }

  /** Frames that no window is asked about. */
  function PassedUp(i: Input): seq<Octets> {
    if i.Received? && Classify(i.f).PassUp? then [i.f] else []
  }

  /** The ADDBA responses sent. */
  function Replies(i: Input, bssid: Mac, mac: Mac): seq<Octets> {
    if i.Received? && Classify(i.f).SetUp? then [AddbaResponse(Classify(i.f).reply, bssid, mac)] else []
  }

  function AllPassedUp(ins: seq<Input>): seq<Octets> {
    if ins == [] then [] else AllPassedUp(ins[..|ins| - 1]) + PassedUp(ins[|ins| - 1])
  }

  function AllReplies(ins: seq<Input>, bssid: Mac, mac: Mac): seq<Octets> {
    if ins == [] then [] else AllReplies(ins[..|ins| - 1], bssid, mac) + Replies(ins[|ins| - 1], bssid, mac)
  }

  lemma RunSnoc(s: Tid<Octets>, es: seq<Event<Octets>>, e: Event<Octets>)
    ensures Run(s, es + [e]) == Step(Run(s, es), e)
  {
    assert (es + [e])[..|es|] == es;
  }

  lemma StepRun(s: Tid<Octets>, t: TidNo, es: seq<Event<Octets>>, i: Input)
    ensures Stepped(Run(s, es), t, i) == Run(s, es + EventFor(t, i))
  {
    hide Step, Classify, Run;
    var more := EventFor(t, i);
    if |more| == 0 {
      assert es + more == es;
    } else {
      assert more == [more[0]];
      RunSnoc(s, es, more[0]);
    }
  }

  // ------------------------------------------------ all eight windows

  type Windows = ws: seq<Tid<Octets>> | |ws| == TID_NUM witness Fresh()

  function Fresh(): (ws: seq<Tid<Octets>>)
    ensures |ws| == TID_NUM && forall t :: 0 <= t < TID_NUM ==> ws[t] == Initial<Octets>()
  {
    seq(TID_NUM, _ => Initial())
  }

  /** The windows after an input: a frame moves at most the window of its own TID. */
  function Moved(ws: Windows, i: Input): Windows {
    match i
    case Sweeping(now) => seq(TID_NUM, t requires 0 <= t < TID_NUM => Step(ws[t], Tick(now)))
    case Received(f, now, ok) =>
      match Classify(f)
      case SetUp(tid, ssn, win, _) => ws[tid := Step(ws[tid], Event.Addba(ssn, win, ok))]
      case TearDown(tid) => ws[tid := Step(ws[tid], Delba)]
      case Reorder(tid, sn) => ws[tid := Step(ws[tid], Frame(sn, f, now, true))]
      case _ => ws
  }

  function MovedAll(ws: Windows, ins: seq<Input>): Windows {
    if ins == [] then ws else Moved(MovedAll(ws, ins[..|ins| - 1]), ins[|ins| - 1])
  }

  lemma MovedAt(ws: Windows, i: Input, t: TidNo)
    ensures Moved(ws, i)[t] == Stepped(ws[t], t, i)
  {
    hide Step, Classify;
  }

  /** In every run of the thread each of the eight windows makes exactly the run of its own
      events, so all properties of single runs carry over. */
  lemma {:induction false} TidsIndependent(t: TidNo, ins: seq<Input>)
    ensures MovedAll(Fresh(), ins)[t] == Run(Initial(), Project(t, ins)) && Safe(MovedAll(Fresh(), ins)[t])
    decreases |ins|
  {
    hide Step, Classify, Safe, Moved, Stepped, EventFor;
    if ins != [] {
      var rest, i := ins[..|ins| - 1], ins[|ins| - 1];
      TidsIndependent(t, rest);
      MovedAt(MovedAll(Fresh(), rest), i, t);
      StepRun(Initial(), t, Project(t, rest), i);
    }
    RunSafe<Octets>(Project(t, ins));
  }

  // ------------------------------------------------ conservation over the whole thread

  /** The data frames among the inputs. */
  function DataFrames(ins: seq<Input>): seq<Octets> {
    if ins == [] then []
    else
      var i := ins[|ins| - 1];
      DataFrames(ins[..|ins| - 1])
      + if i.Received? && (Classify(i.f).PassUp? || Classify(i.f).Reorder?) then [i.f] else []
  }

  /** What the first n TIDs account for after a run. */
  ghost function Accounts(n: nat, ins: seq<Input>): multiset<Octets>
    requires n <= TID_NUM
  {
    if n == 0 then multiset{} else Accounts(n - 1, ins) + Account(Run(Initial(), Project(n - 1, ins)))
  }

  /** What the first n TIDs were offered. */
  ghost function AllOffered(n: nat, ins: seq<Input>): multiset<Octets>
    requires n <= TID_NUM
  {
    if n == 0 then multiset{} else AllOffered(n - 1, ins) + multiset(Offered(Project(n - 1, ins)))
  }

  lemma {:induction false} AccountsAreOffered(n: nat, ins: seq<Input>)
    requires n <= TID_NUM
    ensures Accounts(n, ins) == AllOffered(n, ins)
  {
    hide Account, Run, Offered, Project;
    if n > 0 {
      AccountsAreOffered(n - 1, ins);
      RunConserves<Octets>(Project(n - 1, ins));
    }
  }

  lemma OfferedSnoc(es: seq<Event<Octets>>, e: Event<Octets>)
    ensures Offered(es + [e]) == Offered(es) + (if e.Frame? then [e.frame] else [])
  {
    assert (es + [e])[..|es|] == es;
  }

  /** The frame an input offers to TID t, and to the TIDs below n. */
  function OfferedTo(i: Input, t: nat): seq<Octets> {
    if i.Received? && Classify(i.f).Reorder? && Classify(i.f).tid == t then [i.f] else []
  }

  function OfferedBelow(i: Input, n: nat): seq<Octets> {
    if i.Received? && Classify(i.f).Reorder? && Classify(i.f).tid < n then [i.f] else []
  }

  lemma ProjectOffers(t: TidNo, ins: seq<Input>, i: Input)
    ensures Offered(Project(t, ins + [i])) == Offered(Project(t, ins)) + OfferedTo(i, t)
  {
    hide Classify, Offered;
    assert (ins + [i])[..|ins|] == ins;
    var es, more := Project(t, ins), EventFor(t, i);
    if |more| == 0 {
      assert es + more == es;
    } else {
      assert more == [more[0]];
      OfferedSnoc(es, more[0]);
    }
  }

  lemma OfferedBelowNext(i: Input, n: nat)
    ensures multiset(OfferedBelow(i, n + 1)) == multiset(OfferedBelow(i, n)) + multiset(OfferedTo(i, n))
    ensures OfferedBelow(i, 0) == []
  {
    hide Classify;
  }

  /** Each frame for a window is offered to exactly one TID. */
  lemma {:induction false} OffersOnce(n: nat, ins: seq<Input>, i: Input)
    requires n <= TID_NUM
    ensures AllOffered(n, ins + [i]) == AllOffered(n, ins) + multiset(OfferedBelow(i, n))
  {
    hide Offered, Project, OfferedTo, OfferedBelow;
    if n > 0 {
      OffersOnce(n - 1, ins, i);
      ProjectOffers(n - 1, ins, i);
      OfferedBelowNext(i, n - 1);
    } else {
      OfferedBelowNext(i, 0);
    }
  }

  lemma {:induction false} OfferedFrames(ins: seq<Input>)
    ensures AllOffered(TID_NUM, ins) + multiset(AllPassedUp(ins)) == multiset(DataFrames(ins))
    decreases |ins|
  {
    hide Classify, AllOffered;
    if ins == [] {
      NothingOffered(TID_NUM);
    } else {
      var rest, i := ins[..|ins| - 1], ins[|ins| - 1];
      assert ins == rest + [i];
      OfferedFrames(rest);
      OffersOnce(TID_NUM, rest, i);
    }
  }

  lemma {:induction false} NothingOffered(n: nat)
    requires n <= TID_NUM
    ensures AllOffered(n, []) == multiset{}
  {
    if n > 0 { NothingOffered(n - 1); }
  }

  /** Over the whole thread every received data frame is passed up, or released, buffered, stale
      or duplicate in exactly one of the eight windows. */
  lemma ThreadConserves(ins: seq<Input>)
    ensures Accounts(TID_NUM, ins) + multiset(AllPassedUp(ins)) == multiset(DataFrames(ins))
  {
    AccountsAreOffered(TID_NUM, ins);
    OfferedFrames(ins);
  }
}
