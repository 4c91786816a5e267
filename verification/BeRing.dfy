/** The BE ring as the driver's object: each method performs one step of TxMachine, and the two
    transmit paths are sequences of those steps with the hardware reading in between. */
module BeRings {
  import opened Bytes
  import opened TxFrames
  import opened TxRing
  import opened TxMachine

  /** How often the hardware reads before the sample, before the test, before and while the frame is
      written, while its descriptor is written, and before the doorbell. */
  datatype Schedule = Schedule(a: nat, b: nat, c: nat, d: nat, e: nat, f: nat)

  /** The queue after n reads. */
  function Reads(g: Geometry, q: Fifo, n: nat): Fifo {
    if n == 0 then q else Step(Reads(g, q, n - 1), g.len, g.descSz, g.slotSz, HwRead)
  }

  /** The queue after a request: dropped by its size, or by the index sampled after the first
      reads; otherwise posted, however many reads come before its doorbell. */
  function Posted(g: Geometry, q: Fifo, req: Event, h: Schedule): Fifo {
    if !Fits(req, g.descSz, g.slotSz) then q
    else
      var q0 := Reads(g, q, h.a);
      if !HasRoom(q0, g.len) then Reads(g, q0, h.b)
      else Step(Reads(g, Reads(g, Reads(g, Reads(g, Reads(g, q0, h.b), h.c), h.d), h.e), h.f), g.len, g.descSz, g.slotSz, req)
  }

  class BeRing {
    const geo: Geometry
    const pool: array<Octets>
    const bd: array<Bd>
    var wp: nat    // fBeWp
    var door: nat  // the write index in the doorbell register
    var rd: nat    // the hardware's read index
    var pn: nat
    ghost var phase: Phase
    ghost var air: seq<Octets>
    ghost var fifo: Fifo

    ghost function State(): Machine
      reads this, pool, bd
    {
      Machine(wp, door, rd, pn, pool[..], bd[..], phase, air)
    }

    ghost predicate Valid()
      reads this, pool, bd
    {
      Inv(geo, State(), fifo)
    }

    /** The indices and the memory have the right sizes. */
    lemma Sized()
      requires Valid()
      ensures GoodGeometry(geo) && pool.Length == bd.Length == geo.len && wp < geo.len && door < geo.len && rd < geo.len
      ensures Shaped(geo, State())
    {}

    constructor (geo: Geometry)
      requires GoodGeometry(geo)
      ensures Valid() && this.geo == geo && State() == Start(geo) && fifo == EMPTY
    {
      this.geo := geo;
      pool := new Octets[geo.len](_ => []);
      bd := new Bd[geo.len](_ => Bd(0, 0, 0, 0, 0, 0));
      wp, door, rd, pn := 0, 0, 0, 1;
      phase, air, fifo := Idle, [], EMPTY;
      new;
      assert State() == Start(geo);
      StartInv(geo);
    }

    /** A step of the machine was made: the queue makes the step's event. */
    ghost method Account(m: Machine, a: Act)
      requires Inv(geo, m, fifo) && State() == MStep(geo, m, a)
      modifies this`fifo
      ensures Valid() && fifo == Events(geo, old(fifo), Emit(geo, m, a)) && State() == old(State())
    {
      hide MStep, Emit, Events, Indexed, Unread, Aired, Progress;
      StepInv(geo, m, fifo, a);
      fifo := Events(geo, fifo, Emit(geo, m, a));
    }

    /** IOLockLock: only one producer is past this point. */
    method TakeLock(ghost req: Event)
      requires Valid() && phase.Idle? && ReqOk(geo, req)
      modifies this`phase, this`fifo
      ensures Valid() && State() == MStep(geo, old(State()), Lock(req)) && fifo == old(fifo) && phase == Locked(req)
    {
      hide Inv, Events;
      Sized();
      ghost var m := State();
      phase := Locked(req);
      NoEvent(geo, fifo);
      Account(m, Lock(req));
    }

    /** Read the hardware's index, which may be stale as soon as it is read. */
    method SampleIndex() returns (hwrd: nat)
      requires Valid() && phase.Locked?
      modifies this`phase, this`fifo
      ensures Valid() && State() == MStep(geo, old(State()), Sample) && fifo == old(fifo)
      ensures phase == Sampled(old(phase).req, hwrd) && hwrd < geo.len
      ensures (wp + 1) % geo.len == hwrd <==> !HasRoom(fifo, geo.len)
    {
      Sized();
      RoomAt();
      DropIsNothing();
      hide Inv, Events, Step;
      ghost var m := State();
      hwrd := rd;
      phase := Sampled(phase.req, rd);
      Account(m, Sample);
    }

    lemma RoomAt()
      requires Valid()
      ensures (wp + 1) % geo.len == rd <==> !HasRoom(fifo, geo.len)
    {
      FullTest(rd, |fifo.queue|, geo.len);
    }

    /** Dropping a request for want of room is no change of the queue. */
    lemma DropIsNothing()
      requires Valid() && phase.Locked?
      ensures Events(geo, fifo, Emit(geo, State(), Sample)) == fifo
    {
      hide Fits;
      RoomAt();
      OneEvent(geo, fifo, phase.req);
    }

    /** Compare with the sampled index; with room, take the packet number. */
    method TestRoom(hwrd: nat, data: bool) returns (room: bool, number: nat)
      requires Valid() && phase.Sampled? && phase.seen == hwrd && data == phase.req.TxEth?
      modifies this`phase, this`pn, this`fifo
      ensures Valid() && State() == MStep(geo, old(State()), Check) && fifo == old(fifo)
      ensures room <==> (wp + 1) % geo.len != hwrd
      ensures phase == if room then Claimed(old(phase).req, number) else Idle
      ensures room ==> number == fifo.pn
    {
      Sized();
      NumberOf();
      hide Inv, Events;
      ghost var m := State();
      number := pn;
      room := (wp + 1) % geo.len != hwrd;
      if room {
        phase := Claimed(phase.req, number);
        if data { pn := pn + 1; }
      } else {
        phase := Idle;
      }
      NoEvent(geo, fifo);
      Account(m, Check);
    }

    lemma NumberOf()
      requires Valid() && phase.Sampled?
      ensures pn == fifo.pn
    {}

    /** The frame is stored behind what the slot held in place of its TX descriptor. */
    method StorePartly(f: Octets)
      requires Valid() && phase.Claimed?
      modifies this`fifo, pool
      ensures Valid() && fifo == old(fifo)
      ensures exists b: Octets :: State() == MStep(geo, old(State()), StoreFrame(b + f))
    {
      Sized();
      hide Inv, Events;
      ghost var m := State();
      var head := if |pool[wp]| >= geo.descSz then pool[wp][..geo.descSz] else Blank(geo.descSz);
      var bytes := head + f;
      pool[wp] := bytes;
      assert pool[..] == m.pool[wp := bytes];
      NoEvent(geo, fifo);
      Account(m, StoreFrame(bytes));
    }

    /** The frame and its cleared TX descriptor are complete in the slot. */
    method WriteFrame(f: Octets)
      requires Valid() && phase.Claimed? && f == FrameOf(geo, phase.req, phase.pn)
      modifies this`phase, this`fifo, pool
      ensures Valid() && State() == MStep(geo, old(State()), FinishFrame) && fifo == old(fifo)
      ensures phase == Framed(old(phase).req, old(phase).pn)
    {
      Sized();
      hide Inv, Events, FrameOf;
      ghost var m := State();
      pool[wp] := Blank(geo.descSz) + f;
      assert pool[..] == m.pool[wp := SlotOf(geo, phase.req, phase.pn)];
      phase := Framed(phase.req, phase.pn);
      NoEvent(geo, fifo);
      Account(m, FinishFrame);
    }

    /** The buffer descriptor is complete. */
    method WriteDescriptor(frameLen: nat)
      requires Valid() && phase.Framed? && frameLen == |FrameOf(geo, phase.req, phase.pn)|
      modifies this`phase, this`fifo, bd
      ensures Valid() && State() == MStep(geo, old(State()), FinishDescriptor) && fifo == old(fifo)
      ensures phase == Described(old(phase).req, old(phase).pn)
    {
      Sized();
      hide Inv, Events, FrameOf;
      ghost var m := State();
      bd[wp] := Bd(geo.descSz, (frameLen + geo.descSz - 1) / 128 + 1, wp, frameLen, wp, geo.descSz);
      assert bd[..] == m.bd[wp := BdOf(geo, wp, frameLen)];
      phase := Described(phase.req, phase.pn);
      NoEvent(geo, fifo);
      Account(m, FinishDescriptor);
    }

    /** Behind the barrier: advance the write index, ring the doorbell, release the lock. */
    method RingDoorbell()
      requires Valid() && phase.Described?
      modifies this`wp, this`door, this`phase, this`fifo
      ensures Valid() && phase.Idle? && State() == MStep(geo, old(State()), Doorbell)
      ensures fifo == Step(old(fifo), geo.len, geo.descSz, geo.slotSz, old(phase).req)
    {
      Sized();
      hide Inv, Step, Events;
      ghost var m := State();
      OneEvent(geo, fifo, phase.req);
      wp := (wp + 1) % geo.len;
      door := wp;
      phase := Idle;
      Account(m, Doorbell);
    }

    /** The hardware, at any time: it sends the frame at its read index and advances. */
    method Hardware() returns (sent: Octets)
      requires Valid()
      modifies this`rd, this`air, this`fifo
      ensures Valid() && State() == MStep(geo, old(State()), Read)
      ensures fifo == Step(old(fifo), geo.len, geo.descSz, geo.slotSz, HwRead)
      ensures old(fifo).queue != [] ==> sent == OnAir(old(fifo).queue[0], geo.bssid, geo.mac)
      ensures old(fifo).queue == [] ==> sent == [] && air == old(air)
    {
      Sized();
      FetchesOldest();
      hide Inv, Step, Events, OnAir;
      ghost var m := State();
      OneEvent(geo, fifo, HwRead);
      sent := [];
      if rd != door {
        var b := bd[rd];
        if b.frameSlot < pool.Length && b.frameOff + b.frameLen <= |pool[b.frameSlot]| {
          sent := pool[b.frameSlot][b.frameOff..b.frameOff + b.frameLen];
        }
        air := air + [sent];
        rd := (rd + 1) % geo.len;
      }
      Account(m, Read);
    }

    lemma FetchesOldest()
      requires Valid()
      ensures rd == door <==> fifo.queue == []
      ensures fifo.queue != [] ==> Shaped(geo, State()) && Fetch(pool[..], bd[..], rd) == OnAir(fifo.queue[0], geo.bssid, geo.mac)
    {
      hide OnAir;
      EmptyRing(rd, |fifo.queue|, geo.len);
      if fifo.queue != [] { assert Holds(geo, State(), fifo, 0); }
    }

    /** The hardware reads n times while a producer is at work. */
    method Interfere(n: nat)
      requires Valid()
      modifies this`rd, this`air, this`fifo
      ensures Valid() && fifo == Reads(geo, old(fifo), n)
    {
      hide Inv, Step;
      for i := 0 to n
        invariant Valid() && fifo == Reads(geo, old(fifo), i)
      {
        var _ := Hardware();
      }
    }

    /** The steps behind a successful test, in the order of the stores. */
    method Post(f: Octets, h: Schedule)
      requires Valid() && phase.Claimed? && f == FrameOf(geo, phase.req, phase.pn)
      modifies this`wp, this`door, this`rd, this`phase, this`air, this`fifo, pool, bd
      ensures Valid() && phase.Idle?
      ensures fifo == Step(Reads(geo, Reads(geo, Reads(geo, Reads(geo, old(fifo), h.c), h.d), h.e), h.f),
        geo.len, geo.descSz, geo.slotSz, old(phase).req)
    {
      hide Inv, Step, Reads, MStep, FrameOf;
      Interfere(h.c);
      StorePartly(f);
      Interfere(h.d);
      WriteFrame(f);
      Interfere(h.e);
      WriteDescriptor(|f|);
      Interfere(h.f);
      RingDoorbell();
    }

    /** A packet from the network stack; dropped if it does not fit or the ring is full. */
    method TxEthFrame(eth: Octets, h: Schedule)
      requires Valid() && phase.Idle?
      modifies this`wp, this`door, this`rd, this`pn, this`phase, this`air, this`fifo, pool, bd
      ensures Valid() && phase.Idle? && fifo == Posted(geo, old(fifo), TxEth(eth), h)
    {
      hide Inv, Step, Reads, MStep, AirFrame;
      if |eth| < 14 || geo.descSz + (26 + 8 + 8 + (|eth| - 14)) > geo.slotSz { return; }
      TakeLock(TxEth(eth));
      Interfere(h.a);
      var hwrd := SampleIndex();
      Interfere(h.b);
      var room, number := TestRoom(hwrd, true);
      if !room { return; }
      Post(AirFrame(eth, geo.bssid, geo.mac, number), h);
    }

    /** A management frame from the receive thread. */
    method TxActionFrame(f: Octets, running: bool, h: Schedule)
      requires Valid() && phase.Idle?
      modifies this`wp, this`door, this`rd, this`pn, this`phase, this`air, this`fifo, pool, bd
      ensures Valid() && phase.Idle?
      ensures fifo == if running then Posted(geo, old(fifo), TxAction(f), h) else old(fifo)
    {
      hide Inv, Step, Reads, MStep;
      if !running || |f| < 24 || geo.descSz + |f| > geo.slotSz { return; }
      TakeLock(TxAction(f));
      Interfere(h.a);
      var hwrd := SampleIndex();
      Interfere(h.b);
      var room, number := TestRoom(hwrd, false);
      if !room { return; }
      Post(f, h);
    }
  }

  lemma NoEvent(g: Geometry, q: Fifo)
    ensures Events(g, q, []) == q
  {}
}
