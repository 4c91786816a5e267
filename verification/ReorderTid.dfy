/** The reorder engine as implemented: 64 slots indexed by the low six bits of the
    sequence number. Every method is proved to do what ReorderSpec says. */
module ReorderTids {
  import opened Bytes
  import opened SeqNum
  import opened ReorderSpec

  const SLOT_SZ := 12288

  function Idx(x: int): (i: nat)
    ensures i < WIN_MAX
  {
    x % WIN_MAX
  }

  /** The slot arrays as values. */
  datatype Slots = Slots(occ: seq<bool>, len: seq<nat>, tns: seq<nat>, store: seq<Octets>)

  ghost predicate Shaped(a: Slots) {
    && |a.occ| == |a.len| == |a.tns| == WIN_MAX
    && (|a.store| == WIN_MAX || (|a.store| == 0 && forall i :: 0 <= i < WIN_MAX ==> !a.occ[i]))
    && (forall i :: 0 <= i < |a.store| ==> |a.store[i]| == SLOT_SZ)
    && (forall i :: 0 <= i < WIN_MAX ==> a.len[i] <= SLOT_SZ)
  }

  /** What the slots hold when the window is [head, head + win). */
  ghost function Content(a: Slots, head: int, win: nat): Buffer<Octets>
    requires Shaped(a)
  {
    map x | head <= x < head + win && a.occ[Idx(x)] ::
      Entry(a.store[Idx(x)][..a.len[Idx(x)]], a.tns[Idx(x)])
  }

  /** Slots that stand for no number of the window are free. */
  ghost predicate Confined(a: Slots, head: int, win: nat)
    requires Shaped(a)
  {
    win <= WIN_MAX && forall y :: head + win <= y < head + WIN_MAX ==> !a.occ[Idx(y)]
  }

  lemma IdxWrap(x: int, k: nat)
    ensures Idx(Wrap(x) + k) == Idx(x + k)
  {
    IdxPeriod(x + k, -64 * (x / SN_SPACE));
  }

  lemma IdxPeriod(a: int, m: int)
    ensures Idx(a + WIN_MAX * m) == Idx(a)
  {}

  /** Every slot stands for a number of a full window. */
  lemma SlotOf(head: int, i: int)
    requires 0 <= i < WIN_MAX
    ensures exists y :: head <= y < head + WIN_MAX && Idx(y) == i
  {
    var y := head + (i - head) % WIN_MAX;
    assert Idx(y) == i;
  }

  /** Two numbers of one window never share a slot. */
  lemma SlotsDistinct(x: int, y: int)
    requires -WIN_MAX < x - y < WIN_MAX && x != y
    ensures Idx(x) != Idx(y)
  {}

  function Free(a: Slots, i: nat): Slots
    requires i < |a.occ|
  {
    a.(occ := a.occ[i := false])
  }

  lemma FreeSlot(a: Slots, head: int, win: nat, x: int)
    requires Shaped(a) && Confined(a, head, win) && x in Content(a, head, win)
    ensures Shaped(Free(a, Idx(x))) && Confined(Free(a, Idx(x)), head, win)
    ensures Content(Free(a, Idx(x)), head, win) == Content(a, head, win) - {x}
    ensures |a.store| == WIN_MAX && Content(a, head, win)[x].frame == a.store[Idx(x)][..a.len[Idx(x)]]
  {
    forall y | head <= y < head + win && y != x ensures Idx(y) != Idx(x) { SlotsDistinct(x, y); }
  }

  /** Copying `f` to the start of a slot leaves the rest of the slot as it was. */
  function Overwrite(slot: Octets, f: Octets): Octets
    requires |f| <= |slot|
  {
    f + slot[|f|..]
  }

  function Put(a: Slots, i: nat, f: Octets, now: nat): Slots
    requires i < |a.occ| == |a.len| == |a.tns| == |a.store| && |f| <= |a.store[i]|
  {
    Slots(a.occ[i := true], a.len[i := |f|], a.tns[i := now], a.store[i := Overwrite(a.store[i], f)])
  }

  lemma PutSlot(a: Slots, head: int, win: nat, x: int, f: Octets, now: nat)
    requires Shaped(a) && Confined(a, head, win) && |a.store| == WIN_MAX
    requires head <= x < head + win && |f| <= SLOT_SZ
    ensures var b := Put(a, Idx(x), f, now);
      && Shaped(b) && Confined(b, head, win)
      && Content(b, head, win) == Content(a, head, win)[x := Entry(f, now)]
  {
    var b := Put(a, Idx(x), f, now);
    forall y | head <= y < head + WIN_MAX && y != x ensures Idx(y) != Idx(x) { SlotsDistinct(x, y); }
    assert b.store[Idx(x)][..|f|] == f;
  }

  /** After the head moved over free slots, an occupied slot still stands for the same number. */
  lemma StillAhead(a: Slots, head: int, to: int, win: nat, x: int)
    requires Shaped(a) && Confined(a, head, win) && head <= to <= x < to + WIN_MAX && a.occ[Idx(x)]
    requires forall y :: head <= y < to ==> y !in Content(a, head, win)
    ensures x < head + win
  {
    var y := head + (x - head) % WIN_MAX;
    IdxPeriod(y, (x - head) / WIN_MAX);
    assert x == y + WIN_MAX * ((x - head) / WIN_MAX);
    assert y in Content(a, head, win);
  }

  /** Once the passed slots are free, moving the head leaves the content as it is. */
  lemma MoveHead(a: Slots, head: int, to: int, win: nat)
    requires Shaped(a) && Confined(a, head, win) && head <= to
    requires forall x :: head <= x < to ==> x !in Content(a, head, win)
    ensures Confined(a, to, win) && Content(a, to, win) == Content(a, head, win)
  {
    hide Idx;
    forall x | to <= x < to + WIN_MAX && a.occ[Idx(x)] ensures x < head + win { StillAhead(a, head, to, win, x); }
    forall x | x in Content(a, head, win) ensures to <= x {}
  }

  lemma NoneOccupied(a: Slots, head: int, win: nat)
    requires Shaped(a) && win <= WIN_MAX && forall i :: 0 <= i < WIN_MAX ==> !a.occ[i]
    ensures Confined(a, head, win) && Content(a, head, win) == map[]
  {}

  class ReorderTid {
    var active: bool
    var started: bool
    var head: Sn
    var win: nat
    var stored: nat
    const occ: array<bool>
    const len: array<nat>
    const tns: array<nat>
    var store: array?<Octets>

    // The absolute number of the head, the session number, and what has happened so far.
    ghost var at: int
    ghost var epoch: nat
    ghost var log: seq<Delivery<Octets>>
    ghost var stale: seq<Octets>
    ghost var dups: seq<Octets>

    ghost function Values(): Slots
      reads this`store, occ, len, tns, store
    {
      Slots(occ[..], len[..], tns[..], if store == null then [] else store[..])
    }

    /** The invariant in the middle of an operation, when the head slot may be full. */
    ghost predicate Loose()
      reads this, occ, len, tns, store
    {
      && len != tns
      && Shaped(Values())
      && Confined(Values(), at, win)
      && head == Wrap(at)
      && (active <==> store != null) && (store != null ==> store.Length == WIN_MAX)
      && (active ==> 1 <= win <= WIN_MAX)
      && stored == |Content(Values(), at, win)|
    }

    ghost function Abs(): Tid<Octets>
      reads this, occ, len, tns, store
      requires Loose()
    {
      Tid(active, started, epoch, at, win, Content(Values(), at, win), log, stale, dups)
    }

    ghost predicate Valid()
      reads this, occ, len, tns, store
    {
      Loose() && Wf(Abs())
    }

    /** Between operations; the head slot is a hole as well unless a frame was too long for a slot. */
    ghost predicate Sound()
      reads this, occ, len, tns, store
    {
      Loose() && Open(Abs())
    }

    constructor ()
      ensures Valid() && Abs() == Tid(false, false, 0, 0, 0, map[], [], [], [])
      ensures fresh(occ) && fresh(len) && fresh(tns) && store == null
    {
      active, started, head, win, stored, store := false, false, 0, 0, 0, null;
      occ, len, tns := new bool[64](_ => false), new nat[64](_ => 0), new nat[64](_ => 0);
      at, epoch, log, stale, dups := 0, 0, [], [], [];
      new;
      assert Content(Values(), at, win) == map[];
    }

    method DeliverSlot(idx: nat, ghost x: int)
      requires Loose() && x in Abs().buf && idx == Idx(x)
      modifies this`stored, this`log, occ
      ensures Loose() && Abs() == Handed(old(Abs()), x) && stored < old(stored)
    {
      hide Content, Confined;
      ghost var a := Values();
      FreeSlot(a, at, win, x);
      log := log + [Released(epoch, x, store[idx][..len[idx]])];  // deliverMpdu
      occ[idx] := false;
      if stored != 0 { stored := stored - 1; }
      assert Values() == Free(a, idx);
    }

    /** Is the slot of a number of the window full? */
    method SlotFull(idx: nat, ghost x: int) returns (full: bool)
      requires Loose() && at <= x < at + win && idx == Idx(x)
      ensures full <==> x in Abs().buf
    {
      full := occ[idx];
    }

    /** Visit the first `n` slots of the window and hand up the full ones. */
    method WalkSlots(n: nat)
      requires Loose() && n <= win
      modifies this`stored, this`log, occ
      ensures Loose() && Abs() == Passed(old(Abs()), at + n)
    {
      hide Content, Passed, Handed, Shaped, Confined, Values;
      ghost var s := Abs();
      PassedNone(s);
      for k := 0 to n
        invariant Loose() && Abs() == Passed(s, at + k)
      {
        var idx := Idx(head + k);
        IdxWrap(at, k);
        PassedNext(s, at + k);
        var full := SlotFull(idx, at + k);
        if full { DeliverSlot(idx, at + k); }
      }
    }

    /** Set the head, which has already been emptied behind. */
    method SetHead(sn: Sn, ghost to: int)
      requires Loose() && at <= to && sn == Wrap(to)
      requires forall x :: at <= x < to ==> x !in Abs().buf
      modifies this`head, this`at
      ensures Loose() && Abs() == old(Abs()).(head := to)
    {
      forall x | at <= x < to ensures x !in Content(Values(), at, win) { assert x !in Abs().buf; }
      MoveHead(Values(), at, to, win);
      head := sn;
      at := to;
    }

    method DrainReady() returns (released: nat)
      requires Loose() && active
      modifies this`head, this`at, this`stored, this`log, occ
      ensures Loose() && Abs() == Drain(old(Abs())) && released == at - old(at)
      ensures |log| == |old(log)| + released
    {
      hide Content, Passed, Drain, Shaped, Confined, Values;
      released := 0;
      ghost var s := Abs();
      PassedNone(s);
      while true
        invariant Loose() && released == at - s.head && forall y :: s.head <= y < at ==> y in s.buf
        invariant Abs() == Passed(s, at).(head := at) && |log| == |s.log| + released
        decreases stored
      {
        IdxWrap(at, 0);
        var idx := Idx(head);
        PassedNext(s, at);
        var full := SlotFull(idx, at);
        if !full { break; }
        DeliverSlot(idx, at);
        NextHead(at);
        SetHead(SnInc(head), at + 1);
        released := released + 1;
      }
      DrainIs(s, at);
    }

    /** Free space in a slot of the window: copy the frame there. */
    method PutFrame(index: nat, f: Octets, now: nat, ghost x: int)
      requires Loose() && active && at <= x < at + win && index == Idx(x) && |f| <= SLOT_SZ
      requires x !in Abs().buf
      modifies this`stored, occ, len, tns, store
      ensures Loose() && Abs() == old(Abs()).(buf := old(Abs()).buf[x := Entry(f, now)])
    {
      hide Content, Confined, Idx;
      PutSlot(Values(), at, win, x, f, now);
      ghost var a := Values();
      store[index] := Overwrite(store[index], f);
      len[index] := |f|;
      tns[index] := now;
      occ[index] := true;
      stored := stored + 1;
      assert Values() == Put(a, index, f, now);
    }

    /** Slide the window forward so that `sn`, the number `x`, is inside it. */
    method Slide(sn: Sn, ghost x: int)
      requires Loose() && active && x == Resolve(at, sn) && at <= x
      modifies this`head, this`at, this`stored, this`log, occ
      ensures Loose() && Abs() == Advance(old(Abs()), SlideTo(old(at), win, x))
    {
      hide Loose, Content, Values, Advance, Passed, Wrap, Resolve, SnLess, SnInc, SnSub;
      InWindow();
      ghost var s, to := Abs(), SlideTo(at, win, x);
      BeyondWindow(at, sn, win);
      if SnLess(sn, Wrap(head + win)) {
        PassedNone(s);
        return;
      }
      NewHead(at, sn, win);
      var newhead := SnInc(SnSub(sn, win));
      var steps: nat := SnSub(newhead, head);
      if steps > win { steps := win; }
      CappedSlide(s, to, steps);
      WalkSlots(steps);
      SetHead(newhead, to);
    }

    lemma InWindow()
      requires Loose()
      ensures head == Wrap(at) && (active ==> 1 <= win <= WIN_MAX)
      ensures forall y :: y in Abs().buf ==> at <= y < at + win
    {}

    /** Put a frame of the window into its slot, or hand it up if it is the expected one or too long. */
    method Accept(sn: Sn, f: Octets, now: nat, ghost x: int)
      requires Loose() && active && at <= x < at + win && sn == Wrap(x)
      modifies this`head, this`at, this`stored, this`log, this`dups, occ, len, tns, store
      ensures Loose() && Abs() == Accepted(old(Abs()), x, f, now)
    {
      hide Content, Drain, Shaped, Confined, Values;
      IdxWrap(x, 0);
      StoredNone();
      var index := Idx(sn);
      var full := SlotFull(index, x);
      if full {
        dups := dups + [f];
      } else if sn == head && stored == 0 {
        WrapInjective(at, x);
        FastPath(Abs(), x, f, now);
        NextHead(at);
        SetHead(SnInc(head), at + 1);
        log := log + [Released(epoch, x, f)];
      } else if |f| > SLOT_SZ {
        WrapApart(at, x);
        HandUpDirect(f);
      } else {
        PutFrame(index, f, now, x);
        var _ := DrainReady();
      }
    }

    lemma StoredNone()
      requires Loose()
      ensures stored == 0 <==> Abs().buf == map[]
    {}

    /** deliverMpdu, outside the window. */
    method HandUpDirect(f: Octets)
      requires Loose()
      modifies this`log
      ensures Loose() && Abs() == old(Abs()).(log := old(log) + [Direct(f)])
    {
      log := log + [Direct(f)];
    }

    method DropStale(f: Octets)
      requires Loose()
      modifies this`stale
      ensures Loose() && Abs() == old(Abs()).(stale := old(stale) + [f])
    {
      stale := stale + [f];
    }

    method Start()
      requires Loose()
      modifies this`started
      ensures Loose() && started && Abs() == old(Abs()).(started := true)
    {
      started := true;
    }

    /** Insert a received frame of any length; `now` is the uptime. */
    method Insert(sn: Sn, f: Octets, now: nat)
      requires Sound() && active
      modifies this, occ, len, tns, store
      ensures Sound() && (old(Valid()) && |f| <= SLOT_SZ ==> Valid())
      ensures Abs() == ReorderSpec.Insert(old(Abs()), sn, f, now, |f| <= SLOT_SZ) && store == old(store)
    {
      hide Content, Drain, Advance, Shaped, Confined, Values, Wf, Resolve, SnLess, Wrap;
      InsertWf(Abs(), sn, f, now, |f| <= SLOT_SZ);
      ghost var s, x := Abs(), Resolve(at, sn);
      SnLessIsOrder(at, sn);
      if !started {
        if SnLess(sn, head) { HandUpDirect(f); return; }
        Start();
      }
      if SnLess(sn, head) { DropStale(f); return; }
      Slide(sn, x);
      AdvanceHead(s.(started := true), SlideTo(s.head, win, x));
      Accept(sn, f, now, x);
    }

    /** Hand up everything buffered, in order, if there is anything. */
    method FlushWindow()
      requires Sound() && active
      modifies this`stored, this`log, occ
      ensures Loose() && Abs() == Passed(old(Abs()), at + win) && Abs().buf == map[] && stored == 0
    {
      FlushLeavesNothing(Abs());
      hide Content, Shaped, Confined, Values, Passed, Open;
      WalkSlots(win);
    }

    /** Begin a session with an empty window at `ssn`, using the slot store `st`. */
    method Restart(st: array<Octets>, ssn: Sn, w: nat)
      requires len != tns && Shaped(Values())
      requires st.Length == WIN_MAX && forall i :: 0 <= i < WIN_MAX ==> |st[i]| == SLOT_SZ
      modifies this, occ
      ensures Valid() && store == st
      ensures Abs() == Tid(true, false, old(epoch) + 1, ssn, Clamp(w), map[], old(log), old(stale), old(dups))
    {
      for i := 0 to WIN_MAX
        invariant forall k :: 0 <= k < i ==> !occ[k]
        modifies occ
      {
        occ[i] := false;
      }
      head, at, store := ssn, ssn, st;
      win := Clamp(w);
      stored, started, active := 0, false, true;
      epoch := epoch + 1;
      NoneOccupied(Values(), at, win);
    }

    /** Hand up what an active session has buffered. */
    method FlushIfActive()
      requires Sound()
      modifies this`stored, this`log, occ
      ensures Loose() && Abs() == if active then Passed(old(Abs()), at + win) else old(Abs())
    {
      hide Shaped, Confined, Open, Content, Values, Passed;
      if active && stored != 0 {
        FlushWindow();
      } else if active {
        Nothing(Values(), at, win);
        FlushEmpty(Abs());
      }
    }

    /** No frame is counted: none is buffered. */
    lemma Nothing(a: Slots, head: int, win: nat)
      requires Shaped(a) && |Content(a, head, win)| == 0
      ensures Content(a, head, win) == map[]
    {
      hide Shaped, Content;
    }

    /** ADDBA accepted: flush if already active, then restart at `ssn`. */
    method Activate(ssn: Sn, w: nat, allocOk: bool)
      requires Sound()
      modifies this, occ, len, tns, store
      ensures Valid() && Abs() == ReorderSpec.Activate(old(Abs()), ssn, w, allocOk)
      ensures store == old(store) || fresh(store)
    {
      hide Confined, Wf, Content;
      WfIsOpen(Abs());
      FlushIfActive();
      var st := store;
      if st == null {
        if !allocOk { active := false; return; }
        st := new Octets[WIN_MAX](_ => seq(SLOT_SZ, _ => 0));
      }
      Restart(st, ssn, w);
    }

    /** DELBA: flush, then free the store. */
    method Deactivate()
      requires Sound()
      modifies this, occ
      ensures Valid() && Abs() == ReorderSpec.Deactivate(old(Abs()))
      ensures store == old(store) || store == null
    {
      hide Content, Confined, Shaped, Wf, Values;
      WfIsOpen(Abs());
      if !active { return; }
      FlushWindow();
      NothingOccupied();
      Release();
    }

    /** Free the slot store of an emptied window. */
    method Release()
      requires Loose() && active && forall i :: 0 <= i < WIN_MAX ==> !occ[i]
      modifies this`store, this`active, this`started, this`stored
      ensures Valid() && store == null
      ensures Abs() == old(Abs()).(active := false, started := false, buf := map[])
    {
      store := null;
      active, started, stored := false, false, 0;
      NoneOccupied(Values(), at, win);
    }

    lemma NothingOccupied()
      requires Loose() && active && Abs().buf == map[]
      ensures forall i :: 0 <= i < WIN_MAX ==> !occ[i]
    {
      hide Idx;
      forall i | 0 <= i < WIN_MAX ensures !occ[i] {
        SlotOf(at, i);
        var x :| at <= x < at + WIN_MAX && Idx(x) == i;
        assert x !in Abs().buf;
      }
    }

    lemma HeadHole()
      requires Valid()
      ensures at !in Abs().buf && (active ==> 1 <= win)
    {}

    /** The distance from the head to the lowest buffered frame, and its slot. */
    method FindBuffered() returns (found: bool, jdist: nat, jidx: nat)
      requires Valid() && active
      ensures found <==> Oldest(Abs()) < at + win
      ensures found ==> at + jdist == Oldest(Abs()) && at + jdist in Abs().buf && jidx == Idx(at + jdist)
    {
      hide Content, Shaped, Confined, Values, Wf, Oldest;
      found, jdist, jidx := false, 0, 0;
      var k := 1;
      HeadHole();
      while k < win
        invariant 1 <= k <= win && forall y :: at <= y < at + k ==> y !in Abs().buf
      {
        IdxWrap(at, k);
        var i := Idx(head + k);
        var full := SlotFull(i, at + k);
        if full {
          OldestIs(Abs(), at + k);
          return true, k, i;
        }
        k := k + 1;
      }
      OldestIs(Abs(), at + win);
    }

    /** The stamp of a buffered frame. */
    method StampOf(idx: nat, ghost x: int) returns (t: nat)
      requires Loose() && x in Abs().buf && idx == Idx(x)
      ensures t == Abs().buf[x].stamp
    {
      t := tns[idx];
    }

    /** Give up on the hole at the head, `jdist` long. */
    method SkipHole(jdist: nat) returns (released: nat)
      requires Valid() && active && at + jdist == Oldest(Abs()) < at + win
      modifies this`head, this`at, this`stored, this`log, occ
      ensures Valid() && Abs() == Skip(old(Abs())) && |Abs().buf| < |old(Abs()).buf|
      ensures |log| == |old(log)| + released
    {
      SkipWf(Abs());
      SkipShrinks(Abs());
      AdvanceToOldest(Abs());
      WrapAdd(at, jdist);
      hide Content, Shaped, Confined, Values, Drain, Advance, Wf;
      SetHead(Wrap(head + jdist), at + jdist);
      released := DrainReady();
    }

    /** One TID's part of the periodic sweep, once its head slot is a hole. */
    method SkipHoles(now: nat) returns (released: nat)
      requires Valid() && active
      modifies this`head, this`at, this`stored, this`log, occ
      ensures Valid() && Abs() == Sweep(old(Abs()), now) && |log| == |old(log)| + released
    {
      hide Loose, Content, Shaped, Confined, Values, Sweep, Skip, Oldest, Wf;
      released := 0;
      while true
        invariant Valid() && active && Sweep(Abs(), now) == Sweep(old(Abs()), now)
        invariant |log| == |old(log)| + released
        decreases |Abs().buf|
      {
        SweepStep(Abs(), now);
        var found, jdist, jidx := FindBuffered();
        if !found { break; }
        var stamp := StampOf(jidx, at + jdist);
        if now <= stamp + TIMEOUT_NS { break; }
        var r := SkipHole(jdist);
        released := released + r;
      }
    }

    /** One TID's part of the periodic sweep: a full head slot is drained, else holes are skipped. */
    method TimeoutSweep(now: nat) returns (released: nat)
      requires Sound() && active
      modifies this`head, this`at, this`stored, this`log, occ
      ensures Valid() && Abs() == Tidy(old(Abs()), now) && |log| == |old(log)| + released
      ensures forall y :: old(at) <= y < at && y !in old(Abs()).buf ==> WaitedAbove(old(Abs()), y, now)
    {
      HeadInWindow();
      ghost var s := Abs();
      forall y | s.head <= y < Tidy(s, now).head && y !in s.buf ensures WaitedAbove(s, y, now) { TidyKeepsHoles(s, now, y); }
      hide Tidy, WaitedAbove, Content, Shaped, Confined, Values, Sweep, Wf, Open, Drain;
      IdxWrap(at, 0);
      var full := SlotFull(Idx(head), at);
      TidyIs(s, now);
      if full {
        DrainedIsWf(Abs());
        released := DrainReady();
      } else {
        WfIsOpen(Abs());
        released := SkipHoles(now);
      }
    }

    lemma HeadInWindow()
      requires Sound() && active
      ensures 1 <= win && (forall x :: x in Abs().buf ==> at <= x < at + win) && (Abs().buf != map[] ==> started)
    {}

    /** The sweep passes over a TID that is inactive or holds nothing. */
    method SweepIfBusy(now: nat) returns (released: nat)
      requires Sound()
      modifies this`head, this`at, this`stored, this`log, occ
      ensures Valid() && Abs() == if old(Abs()).active then Tidy(old(Abs()), now) else old(Abs())
      ensures |log| == |old(log)| + released
    {
      StoredNone();
      IdleIsTidy(Abs(), now);
      WfIsOpen(Abs());
      released := 0;
      if active && stored != 0 { released := TimeoutSweep(now); }
    }

    /** A frame for this TID: through the window if there is a session, else straight up. */
    method Offer(sn: Sn, f: Octets, now: nat)
      requires Sound()
      modifies this, occ, len, tns, store
      ensures Sound() && store == old(store) && (old(Valid()) && |f| <= SLOT_SZ ==> Valid())
      ensures Abs() == if old(Abs()).active then ReorderSpec.Insert(old(Abs()), sn, f, now, |f| <= SLOT_SZ)
                       else old(Abs()).(log := old(Abs()).log + [Direct(f)])
    {
      if active { Insert(sn, f, now); } else { HandUpDirect(f); }
    }
  }

  /** What happens to a frame whose number is in the window. */
  ghost function Accepted(s: Tid<Octets>, x: int, f: Octets, now: nat): Tid<Octets> {
    if x in s.buf then s.(dups := s.dups + [f])
    else if |f| > SLOT_SZ && !(x == s.head && s.buf == map[]) then s.(log := s.log + [Direct(f)])
    else Drain(s.(buf := s.buf[x := Entry(f, now)]))
  }

  lemma IdleIsTidy(s: Tid<Octets>, now: nat)
    ensures s.buf == map[] ==> Tidy(s, now) == s
  {
    SweepStep(s, now);
  }

  lemma TidyIs(s: Tid<Octets>, now: nat)
    ensures Tidy(s, now) == if s.head in s.buf then Drain(s) else Sweep(s, now)
  {}

  lemma DrainedIsWf(s: Tid<Octets>)
    requires s.active && s.head in s.buf && Open(s)
    ensures Wf(Drain(s))
  {
    DrainWf(s);
  }

  lemma WrapApart(x: int, y: int)
    ensures Wrap(x) != Wrap(y) ==> x != y
  {}

  /** In the window test, as in the stale test, wrapped comparison is absolute comparison. */
  lemma BeyondWindow(head: int, sn: Sn, win: nat)
    requires 1 <= win <= WIN_MAX && head <= Resolve(head, sn)
    ensures SnLess(sn, Wrap(Wrap(head) + win)) <==> Resolve(head, sn) < head + win
  {
    var x := Resolve(head, sn);
    WrapAdd(head, win);
    WrapDifference(x, head + win);
    assert SnSub(sn, Wrap(head + win)) == Wrap(x - head - win);
  }

  /** The new head of a slide, computed on wrapped numbers. */
  lemma NewHead(head: int, sn: Sn, win: nat)
    requires 1 <= win <= WIN_MAX && head + win <= Resolve(head, sn)
    ensures var to := Resolve(head, sn) - win + 1;
      SnInc(SnSub(sn, win)) == Wrap(to) && SnSub(Wrap(to), Wrap(head)) == to - head
  {
    hide Wrap, SnSub, SnInc;
    var x := Resolve(head, sn);
    Subtracted(x, win);
    NextHead(x - win);
    WrapDifference(x - win + 1, head);
    SmallWrap(x - win + 1 - head);
  }

  lemma Subtracted(x: int, win: nat)
    ensures SnSub(Wrap(x), win) == Wrap(x - win)
  {
    WrapAdd(x, -(win as int));
  }

  lemma SmallWrap(d: int)
    ensures 0 <= d < SN_SPACE ==> Wrap(d) == d
  {}

  lemma WrapInjective(x: int, y: int)
    requires Wrap(x) == Wrap(y) && x <= y < x + WIN_MAX
    ensures x == y
  {}

  lemma AdvanceHead(s: Tid<Octets>, to: int)
    ensures Advance(s, to).head == to
  {}

  lemma NextHead(x: int)
    ensures SnInc(Wrap(x)) == Wrap(x + 1)
  {
    WrapAdd(x, 1);
  }

  /** The shortcut for the expected frame does what buffering and draining would do. */
  lemma FastPath(s: Tid<Octets>, x: int, f: Octets, now: nat)
    requires x == s.head && |s.buf| == 0
    ensures Drain(s.(buf := s.buf[x := Entry(f, now)])) == s.(head := x + 1, log := s.log + [Released(s.epoch, x, f)])
  {
    var b := s.buf[x := Entry(f, now)];
    assert b - {x} == map[];
    assert FirstGap(b, x) == x + 1;
    assert Walk(s.epoch, b, x + 1, x + 1) == [];
    assert Without(b, x, x + 1) == map[];
  }
}
