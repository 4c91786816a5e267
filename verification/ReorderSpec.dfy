/** The receive reorder window of one TID, on absolute sequence numbers: what the
    slot-based implementation (module ReorderTid) is proved to do. The frame type is
    a parameter because the engine never looks inside a frame. */
module ReorderSpec {
  import opened SeqNum

  const WIN_MAX := 64
  const TIMEOUT_NS := 100 * 1000 * 1000

  datatype Entry<F> = Entry(frame: F, stamp: nat)

  /** A frame handed up: either straight through (no ordering is claimed), or
      released by the window of the session numbered `epoch`. */
  datatype Delivery<F> = Direct(frame: F) | Released(epoch: nat, asn: int, frame: F)

  type Buffer<F> = map<int, Entry<F>>

  /** One TID. `log`, `stale` and `dups` record what happened to every frame so far. */
  datatype Tid<F> = Tid(
    active: bool, started: bool, epoch: nat, head: int, win: nat, buf: Buffer<F>,
    log: seq<Delivery<F>>, stale: seq<F>, dups: seq<F>)

  /** Between operations the head slot is usually a hole; only a frame too long for a slot can leave
      it full (Open). */
  ghost predicate Open<F(!new)>(s: Tid<F>) {
    && (s.active ==> 1 <= s.win <= WIN_MAX)
    && (!s.active ==> s.buf == map[])
    && (!s.started ==> s.buf == map[])
    && (forall x :: x in s.buf ==> s.head <= x < s.head + s.win)
  }

  ghost predicate Wf<F(!new)>(s: Tid<F>) {
    && (s.active ==> 1 <= s.win <= WIN_MAX)
    && (!s.active ==> s.buf == map[])
    && (!s.started ==> s.buf == map[])
    && (forall x :: x in s.buf ==> s.head < x < s.head + s.win)
  }

  /** The naive walk: visit every sequence number of [lo, hi) and hand up what is buffered. */
  function Walk<F>(epoch: nat, buf: Buffer<F>, lo: int, hi: int): seq<Delivery<F>>
    decreases hi - lo
  {
    if lo >= hi then []
    else (if lo in buf then [Released(epoch, lo, buf[lo].frame)] else []) + Walk(epoch, buf, lo + 1, hi)
  }

  function Without<F>(buf: Buffer<F>, lo: int, hi: int): Buffer<F> {
    map x | x in buf && !(lo <= x < hi) :: buf[x]
  }

  /** The first sequence number from `x` on that is not buffered. */
  function FirstGap<F>(buf: Buffer<F>, x: int): (g: int)
    ensures x <= g && g !in buf && forall y :: x <= y < g ==> y in buf
    decreases |buf|
  {
    if x in buf then
      var rest := buf - {x};
      assert rest.Keys == buf.Keys - {x};
      var g := FirstGap(rest, x + 1);
      assert forall y :: y in buf <==> y == x || y in rest;
      g
    else x
  }

  /** The first buffered sequence number in [x, hi), or hi. */
  function FirstBuffered<F>(buf: Buffer<F>, x: int, hi: int): (g: int)
    requires x <= hi
    ensures x <= g <= hi && (g < hi ==> g in buf) && forall y :: x <= y < g ==> y !in buf
    decreases hi - x
  {
    if x == hi || x in buf then x else FirstBuffered(buf, x + 1, hi)
  }

  /** Move the head to `to`, handing up what is passed. */
  function Advance<F>(s: Tid<F>, to: int): Tid<F> {
    s.(head := to, buf := Without(s.buf, s.head, to), log := s.log + Walk(s.epoch, s.buf, s.head, to))
  }

  function Drain<F>(s: Tid<F>): Tid<F> { Advance(s, FirstGap(s.buf, s.head)) }

  function Flush<F>(s: Tid<F>): Tid<F> { Advance(s, s.head + s.win) }

  /** Hand up the one buffered frame `x`. */
  function Handed<F>(s: Tid<F>, x: int): Tid<F>
    requires x in s.buf
  {
    s.(buf := s.buf - {x}, log := s.log + [Released(s.epoch, x, s.buf[x].frame)])
  }

  /** The walk part of Advance, before the head is moved. */
  function Passed<F>(s: Tid<F>, to: int): Tid<F> {
    s.(buf := Without(s.buf, s.head, to), log := s.log + Walk(s.epoch, s.buf, s.head, to))
  }

  /** Where the head must be for `x` to be inside the window. */
  function SlideTo(head: int, win: nat, x: int): int { if x < head + win then head else x - win + 1 }

  /** Receive sequence number `sn` in an active session. A frame that does not fit a slot is passed
      straight up, unless it is the expected one and nothing is buffered. */
  function Insert<F>(s: Tid<F>, sn: Sn, f: F, now: nat, fits: bool): Tid<F>
    requires s.active
  {
    var x := Resolve(s.head, sn);
    if x < s.head then
      if !s.started then s.(log := s.log + [Direct(f)]) else s.(stale := s.stale + [f])
    else
      var s1 := Advance(s.(started := true), SlideTo(s.head, s.win, x));
      if x in s1.buf then s1.(dups := s1.dups + [f])
      else if !fits && !(x == s1.head && s1.buf == map[]) then s1.(log := s1.log + [Direct(f)])
      else Drain(s1.(buf := s1.buf[x := Entry(f, now)]))
  }

  /** The lowest buffered sequence number, or the end of the window. */
  function Oldest<F>(s: Tid<F>): int { FirstBuffered(s.buf, s.head, s.head + s.win) }

  /** Something is buffered and the lowest such frame has waited for more than 100 ms. */
  predicate Overdue<F>(s: Tid<F>, now: nat) {
    Oldest(s) < s.head + s.win && now > s.buf[Oldest(s)].stamp + TIMEOUT_NS
  }

  /** Give up on the hole at the head and release what is ready behind it. */
  function Skip<F>(s: Tid<F>): Tid<F> { Drain(Advance(s, Oldest(s))) }

  /** While the frame behind the head hole is overdue, skip the hole. */
  function Sweep<F>(s: Tid<F>, now: nat): Tid<F>
    decreases |s.buf|
  {
    if !Overdue(s, now) then s
    else
      SkipShrinks(s);
      Sweep(Skip(s), now)
  }

  /** The whole timeout pass over a TID: a full head slot is drained and that is all. */
  function Tidy<F>(s: Tid<F>, now: nat): Tid<F> { if s.head in s.buf then Drain(s) else Sweep(s, now) }

  /** ADDBA (also on an already active TID): flush, then restart from the new SSN. The
      slot store is only allocated for an inactive TID, and that can fail. */
  function Activate<F>(s: Tid<F>, ssn: Sn, win: nat, allocOk: bool): Tid<F> {
    if !s.active && !allocOk then s
    else
      var s1 := if s.active then Flush(s) else s;
      s1.(active := true, started := false, epoch := s.epoch + 1, head := ssn,
      win := Clamp(win), buf := map[])
  }

  function Clamp(win: nat): nat { if win < 1 then 1 else if win > WIN_MAX then WIN_MAX else win }

  /** DELBA: flush and forget the session. */
  function Deactivate<F>(s: Tid<F>): Tid<F> {
    if !s.active then s else Flush(s).(active := false, started := false, head := s.head, buf := map[])
  }

  // ---------------------------------------------------------------- lemmas

  lemma WithoutSubset<F>(buf: Buffer<F>, lo: int, hi: int)
    ensures |Without(buf, lo, hi)| <= |buf|
    ensures forall x :: x in buf && lo <= x < hi ==> |Without(buf, lo, hi)| < |buf|
  {
    var w := Without(buf, lo, hi);
    assert w.Keys <= buf.Keys;
    SubsetSize(w.Keys, buf.Keys);
  }

  lemma SubsetSize(a: set<int>, b: set<int>)
    requires a <= b
    ensures |a| <= |b|
    ensures a != b ==> |a| < |b|
  {
    assert b == a + (b - a);
  }

  /** Walking at most `win` numbers, then jumping, is the same as walking all of them. */
  lemma CappedSlide<F(!new)>(s: Tid<F>, to: int, steps: nat)
    requires forall x :: x in s.buf ==> s.head <= x < s.head + s.win
    requires s.head <= to && steps == if to - s.head > s.win then s.win else to - s.head
    ensures var p := Passed(s, s.head + steps);
      p.(head := to) == Advance(s, to) && forall x :: s.head <= x < to ==> x !in p.buf
  {
    WalkSplit(s.epoch, s.buf, s.head, s.head + steps, to);
    WalkEmpty(s.epoch, s.buf, s.head + steps, to);
    assert Without(s.buf, s.head, s.head + steps) == Without(s.buf, s.head, to);
  }

  lemma PassedNone<F>(s: Tid<F>)
    ensures Passed(s, s.head) == s && Advance(s, s.head) == s
  {
    assert Without(s.buf, s.head, s.head) == s.buf;
    assert Walk(s.epoch, s.buf, s.head, s.head) == [];
  }

  lemma WalkNext<F>(epoch: nat, buf: Buffer<F>, lo: int, to: int)
    requires lo <= to
    ensures Walk(epoch, buf, lo, to + 1) ==
      Walk(epoch, buf, lo, to) + if to in buf then [Released(epoch, to, buf[to].frame)] else []
  {
    WalkSplit(epoch, buf, lo, to, to + 1);
    assert Walk(epoch, buf, to + 1, to + 1) == [];
  }

  lemma WithoutNext<F>(buf: Buffer<F>, lo: int, to: int)
    requires lo <= to
    ensures Without(buf, lo, to + 1) == if to in buf then Without(buf, lo, to) - {to} else Without(buf, lo, to)
  {
    if to !in buf { assert Without(buf, lo, to + 1) == Without(buf, lo, to); }
  }

  lemma PassedNext<F>(s: Tid<F>, to: int)
    requires s.head <= to
    ensures to in Passed(s, to).buf <==> to in s.buf
    ensures Passed(s, to + 1) == if to in Passed(s, to).buf then Handed(Passed(s, to), to) else Passed(s, to)
  {
    var p := Passed(s, to);
    WalkNext(s.epoch, s.buf, s.head, to);
    WithoutNext(s.buf, s.head, to);
    assert to in p.buf ==> p.buf[to] == s.buf[to];
    assert to !in s.buf ==> p.log + [] == p.log;
    hide Walk;
  }

  /** Passing every buffered number up to a gap is draining. */
  lemma DrainIs<F>(s: Tid<F>, g: int)
    requires s.head <= g && g !in s.buf && forall y :: s.head <= y < g ==> y in s.buf
    ensures Drain(s) == Passed(s, g).(head := g)
  {
    assert FirstGap(s.buf, s.head) == g;
  }

  lemma SkipShrinks<F>(s: Tid<F>)
    requires Oldest(s) < s.head + s.win
    ensures |Skip(s).buf| < |s.buf|
  {
    var g := Oldest(s);
    var s1 := Advance(s, g);
    WithoutSubset(s.buf, s.head, g);
    assert g in s1.buf;
    WithoutSubset(s1.buf, g, FirstGap(s1.buf, g));
  }

  lemma DrainWf<F(!new)>(s: Tid<F>)
    requires s.active && s.started && 1 <= s.win <= WIN_MAX
    requires forall x :: x in s.buf ==> s.head <= x < s.head + s.win
    ensures Wf(Drain(s))
  {}

  lemma WfIsOpen<F(!new)>(s: Tid<F>)
    ensures Wf(s) <==> Open(s) && s.head !in s.buf
  {}

  /** An insert keeps the window; one that fits also keeps the head slot a hole. */
  lemma InsertWf<F(!new)>(s: Tid<F>, sn: Sn, f: F, now: nat, fits: bool)
    requires Open(s) && s.active
    ensures Open(Insert(s, sn, f, now, fits)) && (Wf(s) && fits ==> Wf(Insert(s, sn, f, now, fits)))
  {
    var x := Resolve(s.head, sn);
    if x >= s.head {
      var s1 := Advance(s.(started := true), SlideTo(s.head, s.win, x));
      if x !in s1.buf { DrainWf(s1.(buf := s1.buf[x := Entry(f, now)])); }
    }
  }

  lemma SkipWf<F(!new)>(s: Tid<F>)
    requires Open(s) && s.active && Oldest(s) < s.head + s.win
    ensures Wf(Skip(s))
  {
    DrainWf(Advance(s, Oldest(s)));
  }

  /** Walking the whole window of an empty buffer does nothing. */
  lemma FlushEmpty<F>(s: Tid<F>)
    requires s.buf == map[]
    ensures Passed(s, s.head + s.win) == s
  {
    WalkEmpty(s.epoch, s.buf, s.head, s.head + s.win);
    assert Without(s.buf, s.head, s.head + s.win) == s.buf;
  }

  lemma FlushLeavesNothing<F(!new)>(s: Tid<F>)
    requires Open(s)
    ensures Passed(s, s.head + s.win).buf == map[]
  {}

  /** Moving the head to the oldest buffered frame passes nothing. */
  lemma AdvanceToOldest<F>(s: Tid<F>)
    ensures Advance(s, Oldest(s)) == s.(head := Oldest(s))
  {
    WalkEmpty(s.epoch, s.buf, s.head, Oldest(s));
    assert Without(s.buf, s.head, Oldest(s)) == s.buf;
  }

  lemma SweepStep<F>(s: Tid<F>, now: nat)
    ensures Sweep(s, now) == if Overdue(s, now) then Sweep(Skip(s), now) else s
  {
    if Overdue(s, now) { SkipShrinks(s); }
  }

  lemma OldestIs<F>(s: Tid<F>, g: int)
    requires s.head <= g <= s.head + s.win && (g < s.head + s.win ==> g in s.buf)
    requires forall y :: s.head <= y < g ==> y !in s.buf
    ensures Oldest(s) == g
  {
    var o := FirstBuffered(s.buf, s.head, s.head + s.win);
    assert o < g ==> o in s.buf;
  }

  // ---------------------------------------------------------------- patience

  /** A frame above y that was buffered and is older than 100 ms. */
  ghost predicate WaitedAbove<F(!new)>(s: Tid<F>, y: int, now: nat) {
    exists x :: x in s.buf && y < x && now > s.buf[x].stamp + 100_000_000
  }

  /** What one pass of the timeout loop gives up on lies below an overdue frame. */
  lemma SkipGivesUp<F(!new)>(s: Tid<F>, now: nat, y: int)
    requires Open(s) && s.active && Overdue(s, now) && s.head <= y < Skip(s).head && y !in s.buf
    ensures WaitedAbove(s, y, now)
  {
    var o := Oldest(s);
    var s1 := Advance(s, o);
    assert o <= y < FirstGap(s1.buf, o) ==> y in s1.buf;
    assert o in s.buf && y < o;
  }

  lemma SkipKeepsRest<F(!new)>(s: Tid<F>)
    requires Open(s) && s.active && Oldest(s) < s.head + s.win
    ensures forall x :: x in Skip(s).buf ==> x in s.buf && s.buf[x] == Skip(s).buf[x]
    ensures forall x :: x in s.buf && x >= Skip(s).head ==> x in Skip(s).buf
  {}

  /** A hole is kept for 100 ms: the sweep moves the head past a number that was not buffered only if
      some frame buffered above it is older than that. */
  lemma {:induction false} SweepKeepsHoles<F(!new)>(s: Tid<F>, now: nat, y: int)
    requires Open(s) && s.active && s.head <= y < Sweep(s, now).head && y !in s.buf
    ensures WaitedAbove(s, y, now)
    decreases |s.buf|
  {
    if Overdue(s, now) {
      var t := Skip(s);
      SkipWf(s);
      SkipShrinks(s);
      SkipKeepsRest(s);
      if y < t.head {
        SkipGivesUp(s, now, y);
      } else {
        SweepKeepsHoles(t, now, y);
        var x :| x in t.buf && y < x && now > t.buf[x].stamp + 100_000_000;
        assert x in s.buf;
      }
    }
  }

  lemma TidyKeepsHoles<F(!new)>(s: Tid<F>, now: nat, y: int)
    requires Open(s) && s.active && s.head <= y < Tidy(s, now).head && y !in s.buf
    ensures WaitedAbove(s, y, now)
  {
    if s.head !in s.buf { SweepKeepsHoles(s, now, y); }
  }

  /** In particular, while every buffered frame has waited at most 100 ms behind a hole, the pass
      changes nothing. */
  lemma TidyIsPatient<F(!new)>(s: Tid<F>, now: nat)
    requires Open(s) && s.active && s.head !in s.buf
    requires forall x :: x in s.buf ==> now <= s.buf[x].stamp + 100_000_000
    ensures Tidy(s, now) == s
  {
    SweepStep(s, now);
  }

  // ---------------------------------------------------------------- walks

  lemma {:induction false} WalkSplit<F>(epoch: nat, buf: Buffer<F>, lo: int, mid: int, hi: int)
    requires lo <= mid <= hi
    ensures Walk(epoch, buf, lo, hi) == Walk(epoch, buf, lo, mid) + Walk(epoch, buf, mid, hi)
    decreases mid - lo
  {
    if lo < mid { WalkSplit(epoch, buf, lo + 1, mid, hi); }
  }

  /** A walk only depends on what is buffered in its range. */
  lemma {:induction false} WalkAgree<F>(epoch: nat, a: Buffer<F>, b: Buffer<F>, lo: int, hi: int)
    requires forall x :: lo <= x < hi ==> (x in a <==> x in b) && (x in a ==> a[x].frame == b[x].frame)
    ensures Walk(epoch, a, lo, hi) == Walk(epoch, b, lo, hi)
    decreases hi - lo
  {
    if lo < hi { WalkAgree(epoch, a, b, lo + 1, hi); }
  }

  lemma {:induction false} WalkEmpty<F>(epoch: nat, buf: Buffer<F>, lo: int, hi: int)
    requires forall x :: lo <= x < hi ==> x !in buf
    ensures Walk(epoch, buf, lo, hi) == []
    decreases hi - lo
  {
    if lo < hi { WalkEmpty(epoch, buf, lo + 1, hi); }
  }
}
