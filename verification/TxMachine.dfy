/** The BE ring store by store: a post is several steps under the driver's lock, and the
    hardware, which takes no lock, may read between any two of them. */
module TxMachine {
  import opened Bytes
  import opened TxFrames
  import opened TxRing

  datatype Geometry = Geometry(len: nat, descSz: nat, slotSz: nat, bssid: Mac, mac: Mac)

  predicate GoodGeometry(g: Geometry) { 1 <= g.len <= 4096 && 1 <= g.descSz && g.slotSz < 0x10000 }

  /** A buffer descriptor: the TX descriptor at the start of a slot and the frame after it.
      An address into the pool is a slot and an offset in it. */
  datatype Bd = Bd(descLen: nat, psb: nat, descSlot: nat, frameLen: nat, frameSlot: nat, frameOff: nat)

  /** How far the producer that holds the lock has come with its request. */
  datatype Phase =
    | Idle
    | Locked(req: Event)
    | Sampled(req: Event, seen: nat)
    | Claimed(req: Event, pn: nat)
    | Framed(req: Event, pn: nat)
    | Described(req: Event, pn: nat)

  /** Driver memory and the two index registers: `door` is the write index the hardware sees, `rd`
      its read index. `air` is what the hardware has fetched so far. */
  datatype Machine = Machine(
    wp: nat, door: nat, rd: nat, pn: nat, pool: seq<Octets>, bd: seq<Bd>, phase: Phase, air: seq<Octets>)

  datatype Act =
    | Lock(req: Event)
    | Sample
    | Check
    | StoreFrame(bytes: Octets)
    | FinishFrame
    | StoreDescriptor(bd: Bd)
    | FinishDescriptor
    | Doorbell
    | Read

  function ItemOf(req: Event, pn: nat): Item {
    match req
    case TxEth(eth) => Data(eth, pn)
    case TxAction(f) => Mgmt(f)
    case HwRead => Mgmt([])
  }

  function FrameOf(g: Geometry, req: Event, pn: nat): Octets { OnAir(ItemOf(req, pn), g.bssid, g.mac) }

  function Blank(n: nat): (s: Octets)
    ensures |s| == n
  {
    seq(n, _ => 0)
  }

  /** A finished slot: a cleared TX descriptor and the frame. */
  function SlotOf(g: Geometry, req: Event, pn: nat): Octets { Blank(g.descSz) + FrameOf(g, req, pn) }

  function BdOf(g: Geometry, slot: nat, frameLen: nat): Bd
    requires 1 <= g.descSz
  {
    Bd(g.descSz, (frameLen + g.descSz - 1) / 128 + 1, slot, frameLen, slot, g.descSz)
  }

  /** A request fits exactly if it is at least a header long and its finished slot is not too large. */
  lemma FitsSlot(g: Geometry, req: Event, pn: nat)
    requires !req.HwRead?
    ensures Fits(req, g.descSz, g.slotSz) <==>
      (if req.TxEth? then |req.eth| >= 14 else |req.frame| >= 24) && |SlotOf(g, req, pn)| <= g.slotSz
  {}

  /** The descriptor's page count is the number of 128-byte pages that TX descriptor and frame take, and
      its two buffers are the slot's two parts. */
  lemma BdCovers(g: Geometry, slot: nat, n: nat)
    requires 1 <= g.descSz
    ensures var b := BdOf(g, slot, n);
      && 128 * b.psb - 128 < g.descSz + n <= 128 * b.psb
      && b.descSlot == b.frameSlot == slot && b.descLen == b.frameOff == g.descSz && b.frameLen == n
  {}

  /** What the hardware sends when it reads slot `i`: it follows the descriptor. */
  function Fetch(pool: seq<Octets>, bd: seq<Bd>, i: nat): Octets
    requires i < |bd|
  {
    var b := bd[i];
    if b.frameSlot < |pool| && b.frameOff + b.frameLen <= |pool[b.frameSlot]|
    then pool[b.frameSlot][b.frameOff..b.frameOff + b.frameLen] else []
  }

  ghost predicate Shaped(g: Geometry, m: Machine) {
    && GoodGeometry(g) && |m.pool| == |m.bd| == g.len
    && m.wp < g.len && m.door < g.len && m.rd < g.len
  }

  /** One step; a step that is not the producer's next one does nothing. The size test comes
      before the lock. While a frame or descriptor is being written its slot may hold anything. */
  function MStep(g: Geometry, m: Machine, a: Act): (r: Machine)
    requires Shaped(g, m)
    ensures Shaped(g, r)
  {
    match a
    case Lock(req) =>
      if m.phase.Idle? && !req.HwRead? && Fits(req, g.descSz, g.slotSz) then m.(phase := Locked(req)) else m
    case Sample => if m.phase.Locked? then m.(phase := Sampled(m.phase.req, m.rd)) else m
    case Check =>
      if !m.phase.Sampled? then m
      else if (m.wp + 1) % g.len == m.phase.seen then m.(phase := Idle)
      else m.(phase := Claimed(m.phase.req, m.pn), pn := if m.phase.req.TxEth? then m.pn + 1 else m.pn)
    case StoreFrame(bytes) => if m.phase.Claimed? then m.(pool := m.pool[m.wp := bytes]) else m
    case FinishFrame =>
      if m.phase.Claimed? then
        m.(pool := m.pool[m.wp := SlotOf(g, m.phase.req, m.phase.pn)], phase := Framed(m.phase.req, m.phase.pn))
      else m
    case StoreDescriptor(b) => if m.phase.Framed? then m.(bd := m.bd[m.wp := b]) else m
    case FinishDescriptor =>
      if m.phase.Framed? then
        m.(bd := m.bd[m.wp := BdOf(g, m.wp, |FrameOf(g, m.phase.req, m.phase.pn)|)],
           phase := Described(m.phase.req, m.phase.pn))
      else m
    case Doorbell =>
      if m.phase.Described? then m.(wp := (m.wp + 1) % g.len, door := (m.wp + 1) % g.len, phase := Idle) else m
    case Read =>
      if m.rd == m.door then m
      else m.(air := m.air + [Fetch(m.pool, m.bd, m.rd)], rd := (m.rd + 1) % g.len)
  }

  function Start(g: Geometry): (m: Machine)
    requires GoodGeometry(g)
    ensures Shaped(g, m)
  {
    Machine(0, 0, 0, 1, seq(g.len, _ => []), seq(g.len, _ => Bd(0, 0, 0, 0, 0, 0)), Idle, [])
  }

  function MRun(g: Geometry, m: Machine, acts: seq<Act>): (r: Machine)
    requires Shaped(g, m)
    ensures Shaped(g, r)
    decreases |acts|
  {
    if acts == [] then m else MStep(g, MRun(g, m, acts[..|acts| - 1]), acts[|acts| - 1])
  }

  /** The queue event a step stands for: a request takes effect at its doorbell, or is dropped by
      its size or by the read index it sampled. */
  function Emit(g: Geometry, m: Machine, a: Act): seq<Event>
    requires Shaped(g, m)
  {
    match a
    case Lock(req) =>
      if m.phase.Idle? && !req.HwRead? && !Fits(req, g.descSz, g.slotSz) then [req] else []
    case Sample => if m.phase.Locked? && (m.wp + 1) % g.len == m.rd then [m.phase.req] else []
    case Doorbell => if m.phase.Described? then [m.phase.req] else []
    case Read => [HwRead]
    case _ => []
  }

  function Trace(g: Geometry, m: Machine, acts: seq<Act>): seq<Event>
    requires Shaped(g, m)
    decreases |acts|
  {
    if acts == [] then []
    else
      var n := |acts| - 1;
      Trace(g, m, acts[..n]) + Emit(g, MRun(g, m, acts[..n]), acts[n])
  }

  // ------------------------------------------------ the invariant

  /** Waiting frame `k` is complete in the k-th slot after the read index. */
  ghost predicate Holds(g: Geometry, m: Machine, q: Fifo, k: nat)
    requires Shaped(g, m) && k < |q.queue| < g.len
  {
    var s := Slot(m.rd, k, g.len);
    m.bd[s].frameSlot == s && Fetch(m.pool, m.bd, s) == OnAir(q.queue[k], g.bssid, g.mac)
  }

  /** The indices agree with the queue. */
  ghost predicate Indexed(g: Geometry, m: Machine, q: Fifo)
    requires Shaped(g, m)
  {
    m.wp == m.door && |q.queue| < g.len && m.wp == Slot(m.rd, |q.queue|, g.len)
  }

  /** Every unread slot is complete. */
  ghost predicate Unread(g: Geometry, m: Machine, q: Fifo)
    requires Shaped(g, m) && |q.queue| < g.len
  {
    forall k :: 0 <= k < |q.queue| ==> Holds(g, m, q, k)
  }

  /** What has gone out is what was taken from the queue. */
  ghost predicate Aired(g: Geometry, m: Machine, q: Fifo) {
    |m.air| == |q.done| && forall i :: 0 <= i < |q.done| ==> m.air[i] == OnAir(q.done[i], g.bssid, g.mac)
  }

  ghost predicate ReqOk(g: Geometry, req: Event) { !req.HwRead? && Fits(req, g.descSz, g.slotSz) }

  ghost predicate Numbering(m: Machine, q: Fifo, req: Event, pn: nat) {
    pn == q.pn && m.pn == if req.TxEth? then q.pn + 1 else q.pn
  }

  /** What the producer knows: a stale read index may understate the room, never overstate it. */
  ghost predicate Progress(g: Geometry, m: Machine, q: Fifo)
    requires Shaped(g, m)
  {
    match m.phase
    case Idle => m.pn == q.pn
    case Locked(req) => ReqOk(g, req) && m.pn == q.pn
    case Sampled(req, seen) => ReqOk(g, req) && m.pn == q.pn && ((m.wp + 1) % g.len != seen ==> HasRoom(q, g.len))
    case Claimed(req, pn) => ReqOk(g, req) && Numbering(m, q, req, pn) && HasRoom(q, g.len)
    case Framed(req, pn) =>
      && ReqOk(g, req) && Numbering(m, q, req, pn) && HasRoom(q, g.len) && m.pool[m.wp] == SlotOf(g, req, pn)
    case Described(req, pn) =>
      && ReqOk(g, req) && Numbering(m, q, req, pn) && HasRoom(q, g.len) && m.pool[m.wp] == SlotOf(g, req, pn)
      && m.bd[m.wp] == BdOf(g, m.wp, |FrameOf(g, req, pn)|)
  }

  ghost predicate Inv(g: Geometry, m: Machine, q: Fifo) {
    Shaped(g, m) && Indexed(g, m, q) && Unread(g, m, q) && Aired(g, m, q) && Progress(g, m, q)
  }

  // ------------------------------------------------ every step keeps it

  /** The slot being written is never an unread one. */
  lemma ClaimedIsFree(g: Geometry, m: Machine, q: Fifo, k: nat)
    requires Shaped(g, m) && Indexed(g, m, q) && k < |q.queue|
    ensures m.wp != Slot(m.rd, k, g.len)
  {
    SlotsDiffer(m.rd, k, |q.queue|, g.len);
  }

  /** Writing that slot or its descriptor leaves every unread frame as it is. */
  lemma UnreadUntouched(g: Geometry, m: Machine, q: Fifo, bytes: Octets, b: Bd)
    requires Shaped(g, m) && Indexed(g, m, q) && Unread(g, m, q)
    ensures Unread(g, m.(pool := m.pool[m.wp := bytes]), q) && Unread(g, m.(bd := m.bd[m.wp := b]), q)
  {
    hide OnAir, Slot;
    var m1, m2 := m.(pool := m.pool[m.wp := bytes]), m.(bd := m.bd[m.wp := b]);
    forall k | 0 <= k < |q.queue| ensures Holds(g, m1, q, k) && Holds(g, m2, q, k) {
      assert Holds(g, m, q, k);
      ClaimedIsFree(g, m, q, k);
    }
  }

  function Events(g: Geometry, q: Fifo, es: seq<Event>): Fifo { Run(q, g.len, g.descSz, g.slotSz, es) }

  lemma OneEvent(g: Geometry, q: Fifo, e: Event)
    ensures Events(g, q, []) == q && Events(g, q, [e]) == Step(q, g.len, g.descSz, g.slotSz, e)
  {
    assert [e][..0] == [];
  }

  /** The hardware's step: it takes the oldest frame, complete, whatever the producer is doing. */
  lemma ReadKeeps(g: Geometry, m: Machine, q: Fifo)
    requires Inv(g, m, q)
    ensures Inv(g, MStep(g, m, Read), Step(q, g.len, g.descSz, g.slotSz, HwRead))
  {
    hide OnAir, Fits, SlotOf, BdOf, FrameOf, Slot, Fetch;
    var r, p := MStep(g, m, Read), Step(q, g.len, g.descSz, g.slotSz, HwRead);
    EmptyRing(m.rd, |q.queue|, g.len);
    if q.queue != [] {
      assert Holds(g, m, q, 0);
      NextSlots(m.rd, |p.queue|, g.len);
      forall k | 0 <= k < |p.queue| ensures Holds(g, r, p, k) {
        assert Holds(g, m, q, k + 1);
        NextSlots(m.rd, k, g.len);
      }
    }
  }

  lemma EmptyRing(rd: nat, n: nat, len: nat)
    requires rd < len && n < len
    ensures Slot(rd, n, len) == rd <==> n == 0
    ensures Slot(rd, 0, len) == rd
  {}

  /** The read index is sampled, and later compared. */
  lemma SampleKeeps(g: Geometry, m: Machine, q: Fifo)
    requires Inv(g, m, q)
    ensures Inv(g, MStep(g, m, Sample), Events(g, q, Emit(g, m, Sample)))
  {
    hide OnAir, Holds, Fits, SlotOf, BdOf, FrameOf, Slot;
    OneEvent(g, q, if m.phase.Locked? then m.phase.req else HwRead);
    FullTest(m.rd, |q.queue|, g.len);
    KeepsUnread(g, m, MStep(g, m, Sample), q);
  }

  /** A step that writes neither slots nor indices keeps what is unread. */
  lemma KeepsUnread(g: Geometry, m: Machine, r: Machine, q: Fifo)
    requires Shaped(g, m) && Shaped(g, r) && |q.queue| < g.len && Unread(g, m, q)
    requires r.pool == m.pool && r.bd == m.bd && r.rd == m.rd
    ensures Unread(g, r, q)
  {
    hide OnAir, Slot, Fetch;
    forall k | 0 <= k < |q.queue| ensures Holds(g, r, q, k) { assert Holds(g, m, q, k); }
  }

  /** Taking the lock, testing for room and writing the slot change nothing the hardware sees. */
  lemma PrivateKeeps(g: Geometry, m: Machine, q: Fifo, a: Act)
    requires Inv(g, m, q) && !a.Sample? && !a.Doorbell? && !a.Read?
    ensures Inv(g, MStep(g, m, a), Events(g, q, Emit(g, m, a)))
  {
    hide OnAir, Holds, SlotOf, BdOf, FrameOf, Slot, Unread;
    OneEvent(g, q, if a.Lock? then a.req else HwRead);
    var r := MStep(g, m, a);
    match a
    case StoreFrame(bytes) => UnreadUntouched(g, m, q, bytes, m.bd[m.wp]);
    case FinishFrame => if m.phase.Claimed? { UnreadUntouched(g, m, q, r.pool[m.wp], m.bd[m.wp]); KeepsUnread(g, m.(pool := r.pool), r, q); }
    case StoreDescriptor(b) => UnreadUntouched(g, m, q, m.pool[m.wp], b);
    case FinishDescriptor => if m.phase.Framed? { UnreadUntouched(g, m, q, m.pool[m.wp], r.bd[m.wp]); KeepsUnread(g, m.(bd := r.bd), r, q); }
    case _ => KeepsUnread(g, m, r, q);
  }

  /** The doorbell shows the hardware one more slot, which is complete. */
  lemma DoorbellKeeps(g: Geometry, m: Machine, q: Fifo)
    requires Inv(g, m, q)
    ensures Inv(g, MStep(g, m, Doorbell), Events(g, q, Emit(g, m, Doorbell)))
  {
    hide OnAir, Fits, Slot, Blank;
    OneEvent(g, q, if m.phase.Described? then m.phase.req else HwRead);
    if m.phase.Described? {
      var req, r := m.phase.req, MStep(g, m, Doorbell);
      var p := Step(q, g.len, g.descSz, g.slotSz, req);
      assert p.queue == q.queue + [ItemOf(req, q.pn)];
      FullTest(m.rd, |q.queue|, g.len);
      FetchFinished(g, m);
      forall k | 0 <= k < |p.queue| ensures Holds(g, r, p, k) {
        if k < |q.queue| { assert Holds(g, m, q, k); }
      }
    }
  }

  lemma FetchFinished(g: Geometry, m: Machine)
    requires Shaped(g, m) && m.phase.Described?
    requires m.pool[m.wp] == SlotOf(g, m.phase.req, m.phase.pn)
    requires m.bd[m.wp] == BdOf(g, m.wp, |FrameOf(g, m.phase.req, m.phase.pn)|)
    ensures Fetch(m.pool, m.bd, m.wp) == FrameOf(g, m.phase.req, m.phase.pn) && m.bd[m.wp].frameSlot == m.wp
  {
    hide FrameOf;
  }

  /** The order of the stores matters: were the doorbell rung as soon as a slot is claimed, a read
      would send something else than the frame, for every first request on a fresh ring. */
  lemma EarlyDoorbellTears(g: Geometry, req: Event)
    requires GoodGeometry(g) && g.len >= 2 && ReqOk(g, req)
    ensures var m := MStep(g, MStep(g, MStep(g, Start(g), Lock(req)), Sample), Check);
      var rung := m.(wp := (m.wp + 1) % g.len, door := (m.wp + 1) % g.len);
      m.phase == Claimed(req, 1) && MStep(g, rung, Read).air == [[]] && FrameOf(g, req, 1) != []
  {
    hide FrameOf, Fits, MStep, Fetch;
    FrameNotEmpty(g, req);
    FreshClaim(g, req);
    FreshRead(g, req);
  }

  lemma FreshClaim(g: Geometry, req: Event)
    requires GoodGeometry(g) && g.len >= 2 && ReqOk(g, req)
    ensures var s := Start(g);
      MStep(g, MStep(g, MStep(g, s, Lock(req)), Sample), Check)
        == s.(phase := Claimed(req, 1), pn := if req.TxEth? then 2 else 1)
  {
    hide Fits;
    assert (0 + 1) % g.len == 1;
    var s := Start(g);
    assert MStep(g, s, Lock(req)) == s.(phase := Locked(req));
    assert MStep(g, s.(phase := Locked(req)), Sample) == s.(phase := Sampled(req, 0));
  }

  lemma FreshRead(g: Geometry, req: Event)
    requires GoodGeometry(g) && g.len >= 2
    ensures var rung := Start(g).(phase := Claimed(req, 1), pn := if req.TxEth? then 2 else 1, wp := 1 % g.len, door := 1 % g.len);
      MStep(g, rung, Read).air == [[]]
  {
    hide Fits;
    assert 1 % g.len == 1;
  }

  lemma FrameNotEmpty(g: Geometry, req: Event)
    requires ReqOk(g, req)
    ensures FrameOf(g, req, 1) != []
  {
    hide AirFrame;
  }

  lemma StepInv(g: Geometry, m: Machine, q: Fifo, a: Act)
    requires Inv(g, m, q)
    ensures Inv(g, MStep(g, m, a), Events(g, q, Emit(g, m, a)))
  {
    hide Inv, MStep, Step, Events;
    match a
    case Sample => SampleKeeps(g, m, q);
    case Doorbell => DoorbellKeeps(g, m, q);
    case Read =>
      ReadKeeps(g, m, q);
      OneEvent(g, q, HwRead);
    case _ => PrivateKeeps(g, m, q, a);
  }

  lemma {:induction false} EventsConcat(g: Geometry, q: Fifo, a: seq<Event>, b: seq<Event>)
    ensures Events(g, q, a + b) == Events(g, Events(g, q, a), b)
    decreases |b|
  {
    hide Step;
    if b == [] {
      assert a + b == a;
    } else {
      var n := |b| - 1;
      assert (a + b)[..|a| + n] == a + b[..n];
      EventsConcat(g, q, a, b[..n]);
    }
  }

  const EMPTY := Fifo([], [], 1)

  lemma StartInv(g: Geometry)
    requires GoodGeometry(g)
    ensures Inv(g, Start(g), EMPTY)
  {}

  /** Every interleaving of the steps of the two producers and the hardware refines the queue run
      of its trace: at every point what is unread is complete, and what has gone out is exactly
      what the queue let go, in order. */
  lemma {:induction false} MachineRefines(g: Geometry, acts: seq<Act>)
    requires GoodGeometry(g)
    ensures Inv(g, MRun(g, Start(g), acts), Events(g, EMPTY, Trace(g, Start(g), acts)))
    decreases |acts|
  {
    hide Inv, MStep, Emit, Events, Start;
    var m0 := Start(g);
    if acts == [] {
      StartInv(g);
      NoEvents(g);
    } else {
      var n := |acts| - 1;
      MachineRefines(g, acts[..n]);
      var m, t := MRun(g, m0, acts[..n]), Trace(g, m0, acts[..n]);
      StepInv(g, m, Events(g, EMPTY, t), acts[n]);
      EventsConcat(g, EMPTY, t, Emit(g, m, acts[n]));
    }
  }

  lemma NoEvents(g: Geometry)
    ensures Events(g, EMPTY, []) == EMPTY
  {}

  /** On the air: the fetched data frames carry strictly increasing packet numbers, as the receiver
      reads them, as long as fewer than 2^48 have been posted. */
  lemma AirNumbered(g: Geometry, acts: seq<Act>, i: nat, j: nat)
    requires GoodGeometry(g)
    requires var m, q := MRun(g, Start(g), acts), Events(g, EMPTY, Trace(g, Start(g), acts));
      i < j < |m.air| && |q.done| == |m.air| && q.done[i].Data? && q.done[j].Data? && q.pn <= 0x1_0000_0000_0000
    ensures var air := MRun(g, Start(g), acts).air;
      |air[i]| >= 34 && |air[j]| >= 34 && PnOf(air[i][26..34]) < PnOf(air[j][26..34])
  {
    hide MStep, Emit, Trace, Run, MRun, PnOf, CcmpHeader, AirFrame, Start;
    var m, q := MRun(g, Start(g), acts), Events(g, EMPTY, Trace(g, Start(g), acts));
    MachineRefines(g, acts);
    RunOrdered(g.len, g.descSz, g.slotSz, Trace(g, Start(g), acts));
    DataOnAir(g, q, i);
    DataOnAir(g, q, j);
    assert q.done[i] == History(q)[i] && q.done[j] == History(q)[j];
  }

  lemma DataOnAir(g: Geometry, q: Fifo, i: nat)
    requires Numbered(History(q), q.pn) && i < |q.done| && q.done[i].Data? && q.pn <= 0x1_0000_0000_0000
    ensures var f := OnAir(q.done[i], g.bssid, g.mac); |f| >= 34 && PnOf(f[26..34]) == q.done[i].pn
  {
    hide PnOf, CcmpHeader, AirFrame;
    assert History(q)[i] == q.done[i];
    PnRecovered(q.done[i].pn);
  }
}
