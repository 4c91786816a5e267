/** What the BE transmit ring is for: a bounded queue with two producers and one consumer. */
module TxRing {
  import opened Bytes
  import opened TxFrames

  /** `done` has left for the air, `queue` is waiting; both in posting order. */
  datatype Fifo = Fifo(done: seq<Item>, queue: seq<Item>, pn: nat)

  datatype Event = TxEth(eth: Octets) | TxAction(frame: Octets) | HwRead

  /** Room for one more: one slot always stays free. */
  predicate HasRoom(q: Fifo, len: nat) { |q.queue| + 1 < len }

  /** Descriptor and frame fit a slot. */
  predicate Fits(e: Event, descSz: nat, slotSz: nat) {
    match e
    case TxEth(eth) => |eth| >= 14 && descSz + |eth| + 28 <= slotSz
    case TxAction(f) => |f| >= 24 && descSz + |f| <= slotSz
    case HwRead => true
  }

  function Step(q: Fifo, len: nat, descSz: nat, slotSz: nat, e: Event): Fifo {
    match e
    case TxEth(eth) =>
      if Fits(e, descSz, slotSz) && HasRoom(q, len) then q.(queue := q.queue + [Data(eth, q.pn)], pn := q.pn + 1) else q
    case TxAction(f) =>
      if Fits(e, descSz, slotSz) && HasRoom(q, len) then q.(queue := q.queue + [Mgmt(f)]) else q
    case HwRead =>
      if q.queue == [] then q else q.(done := q.done + [q.queue[0]], queue := q.queue[1..])
  }

  function Run(q: Fifo, len: nat, descSz: nat, slotSz: nat, es: seq<Event>): Fifo {
    if es == [] then q else Step(Run(q, len, descSz, slotSz, es[..|es| - 1]), len, descSz, slotSz, es[|es| - 1])
  }

  function History(q: Fifo): seq<Item> { q.done + q.queue }

  /** Data frames are whole; packet numbers strictly increase along a history, starting at 1, and
      stay below `pn`. */
  ghost predicate Numbered(h: seq<Item>, pn: nat) {
    && (forall i :: 0 <= i < |h| && h[i].Data? ==> |h[i].eth| >= 14)
    && (forall i :: 0 <= i < |h| && h[i].Data? ==> 1 <= h[i].pn < pn)
    && (forall i, j :: 0 <= i < j < |h| && h[i].Data? && h[j].Data? ==> h[i].pn < h[j].pn)
  }

  lemma StepKeeps(q: Fifo, len: nat, descSz: nat, slotSz: nat, e: Event)
    requires Numbered(History(q), q.pn) && q.pn >= 1 && len >= 1 && |q.queue| < len
    ensures var r := Step(q, len, descSz, slotSz, e);
      && Numbered(History(r), r.pn) && r.pn >= 1 && |r.queue| < len
      && History(q) <= History(r) && q.done <= r.done
  {
    var r := Step(q, len, descSz, slotSz, e);
    match e
    case TxEth(eth) => if r != q { assert History(r) == History(q) + [Data(eth, q.pn)]; }
    case TxAction(f) => if r != q { assert History(r) == History(q) + [Mgmt(f)]; }
    case HwRead => if r != q { assert History(r) == History(q); }
  }

  lemma NothingNumbered()
    ensures Numbered(History(Fifo([], [], 1)), 1)
  {}

  /** Under every interleaving the ring holds at most len - 1 frames, frames leave in the
      order they were posted, and packet numbers strictly increase. */
  lemma {:induction false} RunOrdered(len: nat, descSz: nat, slotSz: nat, es: seq<Event>)
    requires len >= 1
    ensures var q := Run(Fifo([], [], 1), len, descSz, slotSz, es);
      && Numbered(History(q), q.pn) && q.pn >= 1 && |q.queue| <= len - 1
    ensures forall k :: 0 <= k <= |es| ==>
      History(Run(Fifo([], [], 1), len, descSz, slotSz, es[..k])) <= History(Run(Fifo([], [], 1), len, descSz, slotSz, es))
    decreases |es|
  {
    hide Step, Numbered;
    var q0 := Fifo([], [], 1);
    assert es[..|es|] == es;
    if es == [] {
      NothingNumbered();
    } else {
      var n := |es| - 1;
      RunOrdered(len, descSz, slotSz, es[..n]);
      StepKeeps(Run(q0, len, descSz, slotSz, es[..n]), len, descSz, slotSz, es[n]);
      forall k | 0 <= k <= n
        ensures History(Run(q0, len, descSz, slotSz, es[..k])) <= History(Run(q0, len, descSz, slotSz, es))
      {
        assert es[..n][..k] == es[..k];
      }
    }
  }

  // ------------------------------------------------ slots

  /** The slot `k` places after `rd`. */
  function Slot(rd: nat, k: nat, len: nat): (i: nat)
    requires rd < len && k < len
    ensures i < len
  {
    if rd + k < len then rd + k else rd + k - len
  }

  lemma NextSlot(rd: nat, len: nat)
    requires rd < len
    ensures (rd + 1) % len == if rd + 1 == len then 0 else rd + 1
  {}

  lemma NextSlots(rd: nat, k: nat, len: nat)
    requires rd < len && k + 1 < len
    ensures Slot((rd + 1) % len, k, len) == Slot(rd, k + 1, len)
  {
    NextSlot(rd, len);
  }

  lemma SlotsDiffer(rd: nat, j: nat, k: nat, len: nat)
    requires rd < len && j < k < len
    ensures Slot(rd, j, len) != Slot(rd, k, len)
  {}

  /** The driver's full test: the next write index meets the read index exactly when no slot
      but the spare one is free. */
  lemma FullTest(rd: nat, n: nat, len: nat)
    requires rd < len && n < len
    ensures (Slot(rd, n, len) + 1) % len == rd <==> n + 1 == len
    ensures n + 1 < len ==> (Slot(rd, n, len) + 1) % len == Slot(rd, n + 1, len)
  {
    var w := Slot(rd, n, len);
    if w + 1 == len {
      assert (w + 1) % len == 0;
    } else {
      assert (w + 1) % len == w + 1;
    }
  }
}
