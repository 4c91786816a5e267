/** From the reorder windows to the network stack: every frame that is handed up goes through the
    MPDU parser, so order and conservation hold for the Ethernet frames as well. */
module RxStack {
  import opened Bytes
  import opened ReorderSpec
  import opened ReorderRuns
  import opened RxDispatch
  import opened RxRuns
  import opened RxEngines
  import Amsdu

  /** The Ethernet frames one MPDU gives; the receive loop hands over nothing shorter than a header. */
  function Parsed(f: Octets): seq<Octets> { if |f| >= 24 then Amsdu.Deliver(f) else [] }

  /** The Ethernet frames of a sequence of MPDUs, in order. */
  function Stack(fs: seq<Octets>): seq<Octets> {
    if fs == [] then [] else Parsed(fs[0]) + Stack(fs[1..])
  }

  lemma {:induction false} StackConcat(a: seq<Octets>, b: seq<Octets>)
    ensures Stack(a + b) == Stack(a) + Stack(b)
    decreases |a|
  {
    hide Parsed;
    if a == [] {
      assert a + b == b;
    } else {
      assert (a + b)[1..] == a[1..] + b;
      StackConcat(a[1..], b);
    }
  }

  lemma StackOne(f: Octets)
    ensures Stack([f]) == Parsed(f)
  {
    hide Parsed;
    assert [f][1..] == [];
  }

  lemma StackAround(a: seq<Octets>, f: Octets, b: seq<Octets>)
    ensures Stack(a + [f] + b) == Stack(a) + Parsed(f) + Stack(b)
  {
    hide Parsed, Stack;
    StackConcat(a + [f], b);
    StackConcat(a, [f]);
    StackOne(f);
  }

  /** The same MPDUs in another order give the same Ethernet frames, as a multiset. */
  lemma {:induction false} StackMultiset(a: seq<Octets>, b: seq<Octets>)
    requires multiset(a) == multiset(b)
    ensures multiset(Stack(a)) == multiset(Stack(b))
    decreases |a|
  {
    hide Parsed, Stack;
    assert |a| == |multiset(a)| == |b|;
    if a == [] {
      assert b == [];
    } else {
      var f := a[0];
      assert a == [] + [f] + a[1..];
      assert f in multiset(b);
      var k :| 0 <= k < |b| && b[k] == f;
      assert b == b[..k] + [f] + b[k + 1..];
      assert multiset(a[1..]) == multiset(a) - multiset{f};
      assert multiset(b[..k] + b[k + 1..]) == multiset(b) - multiset{f};
      StackMultiset(a[1..], b[..k] + b[k + 1..]);
      StackConcat(b[..k], b[k + 1..]);
      StackAround([], f, a[1..]);
      StackAround(b[..k], f, b[k + 1..]);
      StackNone();
    }
  }

  lemma StackNone()
    ensures Stack([]) == []
  {}

  // ------------------------------------------------ order

  /** The Ethernet frames one TID has handed to the stack. */
  function StackOf(w: Tid<Octets>): seq<Octets> { Stack(Frames(w.log)) }

  /** Of any two MPDUs a session released, the one with the lower number comes first, and all its
      Ethernet frames come before all those of the other. */
  ghost predicate InOrder(w: Tid<Octets>) {
    forall i, j :: 0 <= i < j < |w.log| && w.log[i].Released? && w.log[j].Released? && w.log[i].epoch == w.log[j].epoch ==>
      w.log[i].asn < w.log[j].asn && Split(w.log, i, j)
  }

  ghost predicate Split(log: seq<Delivery<Octets>>, i: nat, j: nat)
    requires i < j < |log|
  {
    Stack(Frames(log)) ==
      Stack(Frames(log[..i])) + Parsed(log[i].frame) + (Stack(Frames(log[i + 1..j])) + Parsed(log[j].frame) + Stack(Frames(log[j + 1..])))
  }

  lemma Splits(log: seq<Delivery<Octets>>, i: nat, j: nat)
    requires i < j < |log|
    ensures Split(log, i, j)
  {
    hide Parsed, Stack;
    var a, b, c := log[..i], log[i + 1..j], log[j + 1..];
    assert Frames(log) == Frames(a) + [log[i].frame] + (Frames(b) + [log[j].frame] + Frames(c));
    StackAround(Frames(a), log[i].frame, Frames(b) + [log[j].frame] + Frames(c));
    StackAround(Frames(b), log[j].frame, Frames(c));
  }

  lemma SafeInOrder(w: Tid<Octets>)
    requires Safe(w)
    ensures InOrder(w)
  {
    hide Split;
    forall i, j | 0 <= i < j < |w.log| && w.log[i].Released? && w.log[j].Released? && w.log[i].epoch == w.log[j].epoch
      ensures w.log[i].asn < w.log[j].asn && Split(w.log, i, j)
    {
      Splits(w.log, i, j);
    }
  }

  /** What the stack has been given is never taken back or reordered by a later event. */
  lemma StackGrows(w: Tid<Octets>, e: Event<Octets>)
    ensures StackOf(w) <= StackOf(Step(w, e))
  {
    hide Step, Stack;
    StepExtendsLog(w, e);
    var more := Step(w, e).log[|w.log|..];
    assert Step(w, e).log == w.log + more;
    FramesConcat(w.log, more);
    StackConcat(Frames(w.log), Frames(more));
  }

  // ------------------------------------------------ conservation

  /** Everything a TID accounts for: handed up, buffered, stale, duplicate. */
  function Accounted(w: Tid<Octets>): seq<Octets> { Frames(w.log) + Held(w) + w.stale + w.dups }

  /** What the first n TIDs account for, as Ethernet frames. */
  ghost function EthernetOf(ws: Windows, n: nat): multiset<Octets>
    requires n <= TID_NUM
  {
    if n == 0 then multiset{} else EthernetOf(ws, n - 1) + multiset(Stack(Accounted(ws[n - 1])))
  }

  function AllAccounted(ws: Windows, n: nat): seq<Octets>
    requires n <= TID_NUM
  {
    if n == 0 then [] else AllAccounted(ws, n - 1) + Accounted(ws[n - 1])
  }

  lemma {:induction false} EthernetIsStack(ws: Windows, n: nat)
    requires n <= TID_NUM
    ensures EthernetOf(ws, n) == multiset(Stack(AllAccounted(ws, n)))
  {
    hide Stack, Accounted;
    if n > 0 {
      EthernetIsStack(ws, n - 1);
      StackConcat(AllAccounted(ws, n - 1), Accounted(ws[n - 1]));
    } else {
      StackNone();
    }
  }

  lemma AccountedIsAccount(w: Tid<Octets>)
    ensures multiset(Accounted(w)) == Account(w)
  {
    hide Frames, Walk;
    assert Pipeline(w) == Frames(w.log) + Held(w);
  }

  lemma {:induction false} AllAccountedIsAccounts(ws: Windows, ins: seq<Input>, n: nat)
    requires n <= TID_NUM && forall t: TidNo :: ws[t] == Run(Initial(), Project(t, ins))
    ensures multiset(AllAccounted(ws, n)) == Accounts(n, ins)
  {
    hide Accounted, Account, Run, Project;
    if n > 0 {
      AllAccountedIsAccounts(ws, ins, n - 1);
      AccountedIsAccount(ws[n - 1]);
    }
  }

  /** Over any run of the thread, the Ethernet frames passed up around the windows, and those of the
      MPDUs that each window released, still buffers, dropped as stale or dropped as duplicate, are
      together exactly the Ethernet frames of the data MPDUs received. */
  lemma EthernetConserved(ws: Windows, ins: seq<Input>)
    requires forall t: TidNo :: ws[t] == Run(Initial(), Project(t, ins))
    ensures EthernetOf(ws, TID_NUM) + multiset(Stack(AllPassedUp(ins))) == multiset(Stack(DataFrames(ins)))
  {
    hide Stack, AllAccounted, Accounts, Run, Project, AllPassedUp, DataFrames, EthernetOf;
    var all, passed := AllAccounted(ws, TID_NUM), AllPassedUp(ins);
    EthernetIsStack(ws, TID_NUM);
    AllAccountedIsAccounts(ws, ins, TID_NUM);
    ThreadConserves(ins);
    StackMultiset(all + passed, DataFrames(ins));
    StackConcat(all, passed);
  }

  /** The receive thread together with the parser, on any sequence of inputs. */
  method ServeStack(e: RxEngine, ins: seq<Input>)
    requires e.Valid() && e.windows == Fresh() && e.passed == e.replies == []
    modifies e, e.repr
    ensures e.Valid() && forall t: TidNo :: InOrder(e.windows[t])
    ensures EthernetOf(e.windows, TID_NUM) + multiset(Stack(e.passed)) == multiset(Stack(DataFrames(ins)))
  {
    hide RxEngine.Valid, Run, Project, Safe, InOrder, Stack, EthernetOf, DataFrames, AllPassedUp;
    Serve(e, ins);
    forall t: TidNo ensures InOrder(e.windows[t]) { SafeInOrder(e.windows[t]); }
    EthernetConserved(e.windows, ins);
  }
}
