/** Properties of every run of one TID's reorder window: well-formedness, in-order
    at-most-once release, conservation of frames, and the effect of each event. */
module ReorderRuns {
  import opened SeqNum
  import opened ReorderSpec

  /** What the receive thread can do to a TID. */
  datatype Event<F> =
    | Frame(sn: Sn, frame: F, now: nat, fits: bool)
    | Tick(now: nat)
    | Addba(ssn: Sn, win: nat, allocOk: bool)
    | Delba

  function Step<F>(s: Tid<F>, e: Event<F>): Tid<F> {
    match e
    case Frame(sn, f, now, fits) => if s.active then Insert(s, sn, f, now, fits) else s.(log := s.log + [Direct(f)])
    case Tick(now) => if s.active then Tidy(s, now) else s
    case Addba(ssn, win, ok) => Activate(s, ssn, win, ok)
    case Delba => Deactivate(s)
  }

  function Run<F>(s: Tid<F>, es: seq<Event<F>>): Tid<F>
    decreases |es|
  {
    if es == [] then s else Step(Run(s, es[..|es| - 1]), es[|es| - 1])
  }

  function Initial<F>(): Tid<F> { Tid(false, false, 0, 0, 0, map[], [], [], []) }

  // -------------------------------------------------- order of release

  /** Releases are strictly increasing by (session, sequence number). */
  ghost predicate Ordered<F>(log: seq<Delivery<F>>) {
    forall i, j :: 0 <= i < j < |log| && log[i].Released? && log[j].Released? ==>
      log[i].epoch < log[j].epoch || (log[i].epoch == log[j].epoch && log[i].asn < log[j].asn)
  }

  ghost predicate Before<F>(d: Delivery<F>, epoch: nat, head: int) {
    d.Released? ==> d.epoch < epoch || (d.epoch == epoch && d.asn < head)
  }

  ghost predicate AllBefore<F>(log: seq<Delivery<F>>, epoch: nat, head: int) {
    forall i :: 0 <= i < |log| ==> Before(log[i], epoch, head)
  }

  /** The invariant of every run. */
  ghost predicate Safe<F(!new)>(s: Tid<F>) {
    && Open(s)
    && Ordered(s.log)
    && (s.active ==> AllBefore(s.log, s.epoch, s.head))
    && AllBefore(s.log, s.epoch + 1, 0)
  }

  lemma {:induction false} WalkInRange<F>(epoch: nat, buf: Buffer<F>, lo: int, hi: int)
    ensures var w := Walk(epoch, buf, lo, hi);
      && Ordered(w)
      && forall i :: 0 <= i < |w| ==> w[i].Released? && w[i].epoch == epoch && lo <= w[i].asn < hi
    decreases hi - lo
  {
    if lo < hi { WalkInRange(epoch, buf, lo + 1, hi); }
  }

  lemma AppendWalk<F>(log: seq<Delivery<F>>, epoch: nat, buf: Buffer<F>, lo: int, hi: int)
    requires Ordered(log) && AllBefore(log, epoch, lo) && lo <= hi
    ensures var log' := log + Walk(epoch, buf, lo, hi);
      && Ordered(log') && AllBefore(log', epoch, hi)
  {
    WalkInRange(epoch, buf, lo, hi);
    var w := Walk(epoch, buf, lo, hi);
    var log' := log + w;
    forall i | 0 <= i < |log'| ensures Before(log'[i], epoch, hi) {
      if i < |log| { assert Before(log[i], epoch, lo); } else { assert log'[i] == w[i - |log|]; }
    }
    forall i, j | 0 <= i < j < |log'| && log'[i].Released? && log'[j].Released?
      ensures log'[i].epoch < log'[j].epoch || (log'[i].epoch == log'[j].epoch && log'[i].asn < log'[j].asn)
    {
      if i < |log| { assert Before(log[i], epoch, lo); } else { assert log'[i] == w[i - |log|]; }
      if j >= |log| { assert log'[j] == w[j - |log|]; }
    }
  }

  ghost predicate Within<F(!new)>(s: Tid<F>) { forall x :: x in s.buf ==> s.head <= x < s.head + s.win }

  /** The invariant of an active TID in the middle of an operation: the head slot may be full. */
  ghost predicate Moving<F(!new)>(s: Tid<F>) {
    && s.active && s.started && 1 <= s.win <= WIN_MAX
    && Within(s) && Ordered(s.log) && AllBefore(s.log, s.epoch, s.head)
  }

  lemma AllBeforeNext<F>(log: seq<Delivery<F>>, epoch: nat, head: int)
    requires AllBefore(log, epoch, head)
    ensures AllBefore(log, epoch + 1, 0)
  {
    forall i | 0 <= i < |log| ensures Before(log[i], epoch + 1, 0) { assert Before(log[i], epoch, head); }
  }

  lemma AdvanceMoves<F(!new)>(s: Tid<F>, to: int)
    requires Moving(s) && s.head <= to
    ensures Moving(Advance(s, to))
  {
    AppendWalk(s.log, s.epoch, s.buf, s.head, to);
  }

  lemma DrainSafe<F(!new)>(s: Tid<F>)
    requires Moving(s)
    ensures Safe(Drain(s)) && s.head <= Drain(s).head
  {
    var g := FirstGap(s.buf, s.head);
    AdvanceMoves(s, g);
    AllBeforeNext(Advance(s, g).log, s.epoch, g);
  }

  lemma AppendDirect<F>(log: seq<Delivery<F>>, f: F, epoch: nat, head: int)
    requires Ordered(log)
    ensures Ordered(log + [Direct(f)])
    ensures AllBefore(log, epoch, head) ==> AllBefore(log + [Direct(f)], epoch, head)
  {}

  lemma InsertSafe<F(!new)>(s: Tid<F>, sn: Sn, f: F, now: nat, fits: bool)
    requires Safe(s) && s.active
    ensures var t := Insert(s, sn, f, now, fits);
      Safe(t) && t.active && t.epoch == s.epoch && s.head <= t.head && (s.started ==> t.started)
  {
    var x := Resolve(s.head, sn);
    if x < s.head {
      AppendDirect(s.log, f, s.epoch, s.head);
      AppendDirect(s.log, f, s.epoch + 1, 0);
    } else {
      SlideThenPut(s.(started := true), x, Entry(f, now), f);
    }
  }

  lemma SlideThenPut<F(!new)>(s: Tid<F>, x: int, e: Entry<F>, f: F)
    requires Safe(s) && Moving(s) && s.head <= x
    ensures var s1 := Advance(s, SlideTo(s.head, s.win, x));
      && Safe(s1) && Safe(s1.(log := s1.log + [Direct(f)]))
      && (x !in s1.buf ==> Safe(Drain(s1.(buf := s1.buf[x := e]))) && s1.head <= Drain(s1.(buf := s1.buf[x := e])).head)
  {
    var to := SlideTo(s.head, s.win, x);
    var s1 := Advance(s, to);
    AdvanceMoves(s, to);
    AllBeforeNext(s1.log, s1.epoch, s1.head);
    AppendDirect(s1.log, f, s1.epoch, s1.head);
    AppendDirect(s1.log, f, s1.epoch + 1, 0);
    if x !in s1.buf { DrainSafe(s1.(buf := s1.buf[x := e])); }
  }

  lemma SkipSafe<F(!new)>(s: Tid<F>)
    requires Safe(s) && s.active && Oldest(s) < s.head + s.win
    ensures var t := Skip(s);
      Safe(t) && t.active && t.epoch == s.epoch && s.head <= t.head && t.started == s.started
  {
    AdvanceMoves(s, Oldest(s));
    DrainSafe(Advance(s, Oldest(s)));
  }

  lemma {:induction false} SweepSafe<F(!new)>(s: Tid<F>, now: nat)
    requires Safe(s) && s.active
    ensures var t := Sweep(s, now);
      Safe(t) && t.active && t.epoch == s.epoch && s.head <= t.head && t.started == s.started
    decreases |s.buf|
  {
    if Overdue(s, now) {
      SkipSafe(s);
      SkipShrinks(s);
      SweepSafe(Skip(s), now);
    }
  }

  lemma TidySafe<F(!new)>(s: Tid<F>, now: nat)
    requires Safe(s) && s.active
    ensures var t := Tidy(s, now);
      Safe(t) && t.active && t.epoch == s.epoch && s.head <= t.head && t.started == s.started && t.head !in t.buf
  {
    if s.head in s.buf {
      DrainSafe(s);
    } else {
      SweepSafe(s, now);
      SweepSettles(s, now);
    }
  }

  /** After the timeout pass over a TID whose head slot is a hole, it holds nothing, or its head slot
      is a hole and the lowest buffered frame has been waiting for at most 100 ms. A full head slot,
      which only a frame too long for a slot leaves behind, is drained first; then it takes one more
      pass. */
  lemma TidySettles<F(!new)>(s: Tid<F>, now: nat)
    requires Safe(s) && s.active
    ensures s.head !in s.buf ==> Settled(Tidy(s, now), now)
    ensures Settled(Tidy(Tidy(s, now), now), now)
  {
    TidySafe(s, now);
    if s.head !in s.buf { SweepSettles(s, now); }
    SweepSettles(Tidy(s, now), now);
  }

  lemma {:induction false} SweepSettles<F(!new)>(s: Tid<F>, now: nat)
    requires Safe(s) && s.active && s.head !in s.buf
    ensures Settled(Sweep(s, now), now)
    decreases |s.buf|
  {
    if Overdue(s, now) {
      SkipSafe(s);
      SkipShrinks(s);
      assert Skip(s).head !in Skip(s).buf;
      SweepSettles(Skip(s), now);
    } else if Oldest(s) == s.head + s.win {
      assert s.buf.Keys == {};
    } else {
      assert Oldest(s) in s.buf && forall y :: y in s.buf ==> Oldest(s) <= y;
    }
  }

  ghost predicate Settled<F(!new)>(s: Tid<F>, now: nat) {
    && s.head !in s.buf
    && (s.buf == map[] ||
        exists g :: g in s.buf && s.head < g && now <= s.buf[g].stamp + 100_000_000 && forall y :: y in s.buf ==> g <= y)
  }

  lemma EndSafe<F(!new)>(s: Tid<F>, e: Event<F>)
    requires Safe(s) && (e.Addba? || e.Delba?)
    ensures Safe(Step(s, e))
  {
    var s1 := if s.active then Flush(s) else s;
    if s.active {
      AppendWalk(s.log, s.epoch, s.buf, s.head, s.head + s.win);
      AllBeforeNext(s1.log, s.epoch, s1.head);
    }
    assert Ordered(s1.log) && AllBefore(s1.log, s.epoch + 1, 0);
    var t := Step(s, e);
    if t.epoch == s.epoch + 1 {
      AllBeforeWeaken(s1.log, t.epoch, 0, t.head);
      AllBeforeNext(s1.log, t.epoch, t.head);
    }
  }

  lemma AllBeforeWeaken<F>(log: seq<Delivery<F>>, epoch: nat, a: int, b: int)
    requires AllBefore(log, epoch, a) && a <= b
    ensures AllBefore(log, epoch, b)
  {
    forall i | 0 <= i < |log| ensures Before(log[i], epoch, b) { assert Before(log[i], epoch, a); }
  }

  lemma StepSafe<F(!new)>(s: Tid<F>, e: Event<F>)
    requires Safe(s)
    ensures Safe(Step(s, e))
  {
    match e
    case Frame(sn, f, now, fits) =>
      if s.active { InsertSafe(s, sn, f, now, fits); } else { AppendDirect(s.log, f, s.epoch + 1, 0); }
    case Tick(now) => if s.active { TidySafe(s, now); }
    case Addba(_, _, _) => EndSafe(s, e);
    case Delba => EndSafe(s, e);
  }

  /** In every run, whatever frames, sweeps, re-ADDBAs and DELBAs occur and however often
      the 12-bit numbers wrap: within a session every sequence number is released at most
      once and in increasing order, and the window stays well formed. */
  lemma {:induction false} RunSafe<F(!new)>(es: seq<Event<F>>)
    ensures Safe(Run(Initial<F>(), es))
    decreases |es|
  {
    if es != [] {
      RunSafe(es[..|es| - 1]);
      StepSafe(Run(Initial<F>(), es[..|es| - 1]), es[|es| - 1]);
    }
  }

  /** As long as every frame fits a slot, the head slot is a hole between events. */
  lemma {:induction false} RunKeepsHole<F(!new)>(es: seq<Event<F>>)
    requires forall i :: 0 <= i < |es| && es[i].Frame? ==> es[i].fits
    ensures Wf(Run(Initial<F>(), es))
    decreases |es|
  {
    if es != [] {
      var n := |es| - 1;
      RunKeepsHole(es[..n]);
      RunSafe(es[..n]);
      var s := Run(Initial<F>(), es[..n]);
      StepSafe(s, es[n]);
      StepKeepsHole(s, es[n]);
    }
  }

  lemma StepKeepsHole<F(!new)>(s: Tid<F>, e: Event<F>)
    requires Safe(s) && Wf(s) && (e.Frame? ==> e.fits)
    ensures Wf(Step(s, e))
  {
    match e
    case Frame(sn, f, now, fits) => if s.active { InsertWf(s, sn, f, now, fits); }
    case Tick(now) => if s.active { TidySafe(s, now); }
    case Addba(_, _, _) => EndSafe(s, e);
    case Delba => EndSafe(s, e);
  }

  /** Within a session the head never moves backwards. */
  lemma HeadMonotone<F(!new)>(s: Tid<F>, e: Event<F>)
    requires Safe(s) && s.active && (e.Frame? || e.Tick?)
    ensures var t := Step(s, e); t.active && t.epoch == s.epoch && s.head <= t.head && s.log <= t.log
  {
    match e {
      case Frame(sn, f, now, fits) => InsertSafe(s, sn, f, now, fits);
      case Tick(now) => TidySafe(s, now);
    }
    StepExtendsLog(s, e);
  }

  lemma {:induction false} SweepExtendsLog<F>(s: Tid<F>, now: nat)
    ensures s.log <= Sweep(s, now).log
    decreases |s.buf|
  {
    if Overdue(s, now) {
      SkipShrinks(s);
      SweepExtendsLog(Skip(s), now);
    }
  }

  /** What was handed up stays handed up. */
  lemma StepExtendsLog<F>(s: Tid<F>, e: Event<F>)
    ensures s.log <= Step(s, e).log
  {
    if e.Tick? { SweepExtendsLog(s, e.now); }
  }

  // -------------------------------------------------- fate of an offered frame

  /** Exactly what becomes of a frame offered to an active session: passed through before the session
      started, stale, a duplicate, passed through because it does not fit a slot, or handed up or
      buffered under its own number. */
  lemma InsertFate<F(!new)>(s: Tid<F>, sn: Sn, f: F, now: nat, fits: bool)
    requires Safe(s) && s.active
    ensures var t, x := Insert(s, sn, f, now, fits), Resolve(s.head, sn);
      if x < s.head && !s.started then t == s.(log := s.log + [Direct(f)])
      else if x < s.head then t == s.(stale := s.stale + [f])
      else if x in s.buf then t == s.(dups := s.dups + [f])
      else
        var s1 := Advance(s.(started := true), SlideTo(s.head, s.win, x));
        if !fits && !(x == s1.head && s1.buf == map[]) then t == s1.(log := s1.log + [Direct(f)])
        else
        && t.started && t.stale == s.stale && t.dups == s.dups
        && (if x < t.head then Released(s.epoch, x, f) in t.log else x in t.buf && t.buf[x] == Entry(f, now))
  {
    var x := Resolve(s.head, sn);
    if x >= s.head {
      var to := SlideTo(s.head, s.win, x);
      var s0 := s.(started := true);
      var s1 := Advance(s0, to);
      if x in s.buf {
        assert s.started && s0 == s && to == s.head && Without(s.buf, s.head, s.head) == s.buf;
        assert Walk(s.epoch, s.buf, s.head, s.head) == [];
        assert s1 == s;
      } else {
        var b := s1.buf[x := Entry(f, now)];
        var g := FirstGap(b, to);
        if x < g { WalkHits(s.epoch, b, to, g, x); }
      }
    }
  }

  /** Right after an accepted ADDBA for `ssn`: an older frame is passed straight up and changes nothing
      else, and the frame with that very number is released at once. */
  lemma FirstFrame<F(!new)>(s: Tid<F>, ssn: Sn, win: nat, allocOk: bool, sn: Sn, f: F, now: nat)
    requires s.active || allocOk
    ensures var t := Step(s, Event.Addba(ssn, win, allocOk));
      var r := Step(t, Frame(sn, f, now, true));
      && (Resolve(ssn, sn) < ssn ==> r == t.(log := t.log + [Direct(f)]))
      && (sn == ssn ==> r.log == t.log + [Released(s.epoch + 1, ssn, f)] && r.head == ssn + 1 && r.buf == map[])
  {
    hide Resolve, Flush;
    var t := Step(s, Event.Addba(ssn, win, allocOk));
    if sn == ssn {
      ResolveSame(ssn);
      FirstReleased(t, f, now);
    }
  }

  lemma ResolveSame(sn: Sn)
    ensures Resolve(sn, sn) == sn
  {}

  lemma FirstReleased<F(!new)>(t: Tid<F>, f: F, now: nat)
    requires t.active && t.buf == map[] && t.head >= 0 && t.head < 4096 && t.win >= 1
    ensures var r := Insert(t, t.head, f, now, true);
      r.log == t.log + [Released(t.epoch, t.head, f)] && r.head == t.head + 1 && r.buf == map[]
  {
    ResolveSame(t.head);
    hide Resolve;
    var h := t.head;
    var b: Buffer<F> := map[h := Entry(f, now)];
    assert Without(t.buf, h, h) == map[] && Walk(t.epoch, t.buf, h, h) == [];
    assert FirstGap(b, h) == h + 1;
    assert Walk(t.epoch, b, h + 1, h + 1) == [];
    assert Walk(t.epoch, b, h, h + 1) == [Released(t.epoch, h, f)];
    assert Without(b, h, h + 1) == map[];
  }

  lemma {:induction false} WalkHits<F>(epoch: nat, buf: Buffer<F>, lo: int, hi: int, x: int)
    requires lo <= x < hi && x in buf
    ensures Released(epoch, x, buf[x].frame) in Walk(epoch, buf, lo, hi)
    decreases hi - lo
  {
    if lo < x { WalkHits(epoch, buf, lo + 1, hi, x); }
  }

  // -------------------------------------------------- conservation

  function Frames<F>(log: seq<Delivery<F>>): seq<F> { seq(|log|, i requires 0 <= i < |log| => log[i].frame) }

  /** The buffered frames, in sequence-number order. */
  function Held<F>(s: Tid<F>): seq<F> { Frames(Walk(s.epoch, s.buf, s.head, s.head + s.win)) }

  /** What has been handed up, followed by what is buffered, in the order it will leave. */
  function Pipeline<F>(s: Tid<F>): seq<F> { Line(s.log, s.epoch, s.buf, s.head, s.win) }

  function Line<F>(log: seq<Delivery<F>>, epoch: nat, buf: Buffer<F>, head: int, win: nat): seq<F> {
    Frames(log) + Frames(Walk(epoch, buf, head, head + win))
  }

  /** Every frame the TID has accounted for: handed up, buffered, stale or duplicate. */
  ghost function Account<F>(s: Tid<F>): multiset<F> {
    multiset(Pipeline(s)) + multiset(s.stale) + multiset(s.dups)
  }

  function Offered<F>(es: seq<Event<F>>): seq<F>
    decreases |es|
  {
    if es == [] then []
    else
      var e := es[|es| - 1];
      Offered(es[..|es| - 1]) + (if e.Frame? then [e.frame] else [])
  }

  lemma FramesConcat<F>(a: seq<Delivery<F>>, b: seq<Delivery<F>>)
    ensures Frames(a + b) == Frames(a) + Frames(b)
  {}

  /** Moving the head changes neither the frames of the pipeline nor their order. */
  lemma AdvanceKeepsPipeline<F(!new)>(s: Tid<F>, to: int)
    requires Within(s) && s.head <= to
    ensures Pipeline(Advance(s, to)) == Pipeline(s)
  {
    var t := Advance(s, to);
    var hi := to + s.win;
    var passed, kept := Walk(s.epoch, s.buf, s.head, to), Walk(s.epoch, t.buf, to, hi);
    assert Walk(s.epoch, s.buf, s.head, s.head + s.win) == passed + kept by {
      WalkSplit(s.epoch, s.buf, s.head, s.head + s.win, hi);
      WalkEmpty(s.epoch, s.buf, s.head + s.win, hi);
      WalkSplit(s.epoch, s.buf, s.head, to, hi);
      WalkAgree(s.epoch, s.buf, t.buf, to, hi);
    }
    FramesConcat(passed, kept);
    FramesConcat(s.log, passed);
    assert Frames(s.log) + (Frames(passed) + Frames(kept)) == (Frames(s.log) + Frames(passed)) + Frames(kept);
  }

  lemma WalkAround<F>(epoch: nat, buf: Buffer<F>, lo: int, hi: int, x: int)
    requires lo <= x < hi
    ensures Walk(epoch, buf, lo, hi) == Walk(epoch, buf, lo, x) +
      ((if x in buf then [Released(epoch, x, buf[x].frame)] else []) + Walk(epoch, buf, x + 1, hi))
  {
    WalkSplit(epoch, buf, lo, x, hi);
  }

  lemma WalkPut<F>(epoch: nat, buf: Buffer<F>, lo: int, hi: int, x: int, e: Entry<F>)
    requires lo <= x < hi && x !in buf
    ensures var pre, post := Walk(epoch, buf, lo, x), Walk(epoch, buf, x + 1, hi);
      && Walk(epoch, buf, lo, hi) == pre + post
      && Walk(epoch, buf[x := e], lo, hi) == pre + ([Released(epoch, x, e.frame)] + post)
  {
    hide Walk;
    WalkAround(epoch, buf, lo, hi, x);
    WalkAround(epoch, buf[x := e], lo, hi, x);
    WalkAgree(epoch, buf, buf[x := e], lo, x);
    WalkAgree(epoch, buf, buf[x := e], x + 1, hi);
    assert [] + Walk(epoch, buf, x + 1, hi) == Walk(epoch, buf, x + 1, hi);
  }

  lemma FramesPut<F>(pre: seq<Delivery<F>>, m: Delivery<F>, post: seq<Delivery<F>>)
    ensures multiset(Frames(pre + ([m] + post))) == multiset(Frames(pre + post)) + multiset{m.frame}
  {
    FramesConcat(pre, post);
    FramesConcat(pre, [m] + post);
    FramesConcat([m], post);
    assert Frames([m]) == [m.frame];
  }

  /** Buffering a frame inserts it into the pipeline and leaves the rest in order. */
  lemma PutExtendsPipeline<F>(s: Tid<F>, x: int, e: Entry<F>)
    requires s.head <= x < s.head + s.win && x !in s.buf
    ensures multiset(Pipeline(s.(buf := s.buf[x := e]))) == multiset(Pipeline(s)) + multiset{e.frame}
  {
    hide Walk, Frames;
    WalkPut(s.epoch, s.buf, s.head, s.head + s.win, x, e);
    FramesPut(Walk(s.epoch, s.buf, s.head, x), Released(s.epoch, x, e.frame),
      Walk(s.epoch, s.buf, x + 1, s.head + s.win));
  }

  /** A frame at or ahead of the head joins the pipeline, or it is a duplicate. */
  lemma AheadConserves<F(!new)>(s: Tid<F>, sn: Sn, f: F, now: nat, fits: bool)
    requires Safe(s) && s.active && s.head <= Resolve(s.head, sn)
    ensures var t := Insert(s, sn, f, now, fits);
      && t.stale == s.stale
      && ((t.dups == s.dups + [f] && Pipeline(t) == Pipeline(s)) ||
          (t.dups == s.dups && multiset(Pipeline(t)) == multiset(Pipeline(s)) + multiset{f}))
  {
    hide Line;
    var x, s0 := Resolve(s.head, sn), s.(started := true);
    var s1 := Advance(s0, SlideTo(s.head, s.win, x));
    SlideThenPutConserves(s0, x, Entry(f, now));
    SlideConserves(s0, x);
    DirectExtendsPipeline(s1, f);
  }

  lemma InsertConserves<F(!new)>(s: Tid<F>, sn: Sn, f: F, now: nat, fits: bool)
    requires Safe(s) && s.active
    ensures Account(Insert(s, sn, f, now, fits)) == Account(s) + multiset{f}
  {
    hide Line, Safe;
    if Resolve(s.head, sn) < s.head {
      DirectExtendsPipeline(s, f);
    } else {
      AheadConserves(s, sn, f, now, fits);
    }
  }

  lemma SlideConserves<F(!new)>(s: Tid<F>, x: int)
    requires Moving(s) && s.head <= x
    ensures Pipeline(Advance(s, SlideTo(s.head, s.win, x))) == Pipeline(s)
  {
    AdvanceKeepsPipeline(s, SlideTo(s.head, s.win, x));
  }

  lemma SlideThenPutConserves<F(!new)>(s: Tid<F>, x: int, e: Entry<F>)
    requires Moving(s) && s.head <= x
    ensures var s1 := Advance(s, SlideTo(s.head, s.win, x));
      if x in s1.buf then Pipeline(s1) == Pipeline(s)
      else multiset(Pipeline(Drain(s1.(buf := s1.buf[x := e])))) == multiset(Pipeline(s)) + multiset{e.frame}
  {
    var to := SlideTo(s.head, s.win, x);
    AdvanceKeepsPipeline(s, to);
    AdvanceMoves(s, to);
    if x !in Advance(s, to).buf { PutThenDrain(Advance(s, to), x, e); }
  }

  lemma DirectExtendsPipeline<F>(s: Tid<F>, f: F)
    ensures multiset(Pipeline(s.(log := s.log + [Direct(f)]))) == multiset(Pipeline(s)) + multiset{f}
  {
    FramesConcat(s.log, [Direct(f)]);
    assert Frames([Direct(f)]) == [f];
  }

  lemma PutThenDrain<F(!new)>(s: Tid<F>, x: int, e: Entry<F>)
    requires Within(s) && s.head <= x < s.head + s.win && x !in s.buf
    ensures multiset(Pipeline(Drain(s.(buf := s.buf[x := e])))) == multiset(Pipeline(s)) + multiset{e.frame}
  {
    PutExtendsPipeline(s, x, e);
    var s2 := s.(buf := s.buf[x := e]);
    AdvanceKeepsPipeline(s2, FirstGap(s2.buf, s2.head));
  }

  lemma SkipConserves<F(!new)>(s: Tid<F>)
    requires Safe(s) && s.active && Oldest(s) < s.head + s.win
    ensures Pipeline(Skip(s)) == Pipeline(s) && Skip(s).stale == s.stale && Skip(s).dups == s.dups
  {
    var s1 := Advance(s, Oldest(s));
    AdvanceKeepsPipeline(s, Oldest(s));
    AdvanceKeepsPipeline(s1, FirstGap(s1.buf, s1.head));
  }

  /** A sweep keeps every frame, and the order in which frames leave. */
  lemma {:induction false} SweepConserves<F(!new)>(s: Tid<F>, now: nat)
    requires Safe(s) && s.active
    ensures var t := Sweep(s, now); Pipeline(t) == Pipeline(s) && t.stale == s.stale && t.dups == s.dups
    decreases |s.buf|
  {
    if Overdue(s, now) {
      SkipConserves(s);
      SkipSafe(s);
      SkipShrinks(s);
      SweepConserves(Skip(s), now);
    }
  }

  /** So does the whole timeout pass. */
  lemma TidyConserves<F(!new)>(s: Tid<F>, now: nat)
    requires Safe(s) && s.active
    ensures var t := Tidy(s, now); Pipeline(t) == Pipeline(s) && t.stale == s.stale && t.dups == s.dups
  {
    if s.head in s.buf { AdvanceKeepsPipeline(s, FirstGap(s.buf, s.head)); } else { SweepConserves(s, now); }
  }

  /** A flush hands up every buffered frame, in sequence-number order. */
  lemma FlushHandsUpAll<F(!new)>(s: Tid<F>)
    requires Safe(s) && s.active
    ensures Flush(s).buf == map[] && Frames(Flush(s).log) == Frames(s.log) + Held(s)
  {
    FramesConcat(s.log, Walk(s.epoch, s.buf, s.head, s.head + s.win));
    assert Flush(s).buf.Keys == {};
  }

  lemma EndConserves<F(!new)>(s: Tid<F>, e: Event<F>)
    requires Safe(s) && (e.Addba? || e.Delba?)
    ensures Pipeline(Step(s, e)) == Pipeline(s)
  {
    var t := Step(s, e);
    if s.active {
      FlushHandsUpAll(s);
      assert Frames(t.log) == Pipeline(s);
    } else {
      WalkEmpty(s.epoch, s.buf, s.head, s.head + s.win);
    }
    if s.active || t.active {
      WalkEmpty(t.epoch, t.buf, t.head, t.head + t.win);
      assert Pipeline(t) == Frames(t.log);
    }
  }

  lemma StepConserves<F(!new)>(s: Tid<F>, e: Event<F>)
    requires Safe(s)
    ensures Account(Step(s, e)) == Account(s) + (if e.Frame? then multiset{e.frame} else multiset{})
  {
    match e {
      case Frame(sn, f, now, fits) =>
        if s.active { InsertConserves(s, sn, f, now, fits); } else { DirectExtendsPipeline(s, f); }
      case Tick(now) => if s.active { TidyConserves(s, now); }
      case Addba(_, _, _) => EndConserves(s, e);
      case Delba => EndConserves(s, e);
    }
  }

  /** In every run the frames handed up, still buffered, dropped as stale and dropped as
      duplicate are together exactly the frames offered. */
  lemma {:induction false} RunConserves<F(!new)>(es: seq<Event<F>>)
    ensures Account(Run(Initial<F>(), es)) == multiset(Offered(es))
    decreases |es|
  {
    if es != [] {
      RunConserves(es[..|es| - 1]);
      RunSafe(es[..|es| - 1]);
      StepConserves(Run(Initial<F>(), es[..|es| - 1]), es[|es| - 1]);
    } else {
      assert Account(Initial<F>()) == multiset{};
    }
  }

  ghost function Count<F>(f: F, s: seq<F>): nat { multiset(s)[f] }

  lemma DistinctCount<F>(s: seq<F>, k: nat)
    requires forall i, j :: 0 <= i < j < |s| ==> s[i] != s[j]
    requires k < |s|
    ensures Count(s[k], s) == 1
  {
    assert s == s[..k] + [s[k]] + s[k + 1..];
    assert s[k] !in s[..k] && s[k] !in s[k + 1..];
  }

  /** If the offered frames are told apart (say by an arrival number), each of them has
      exactly one fate. */
  lemma EachFrameOnce<F(!new)>(es: seq<Event<F>>, k: nat)
    requires forall i, j :: 0 <= i < j < |Offered(es)| ==> Offered(es)[i] != Offered(es)[j]
    requires k < |Offered(es)|
    ensures var s, f := Run(Initial<F>(), es), Offered(es)[k];
      Count(f, Frames(s.log)) + Count(f, Held(s)) + Count(f, s.stale) + Count(f, s.dups) == 1
  {
    hide Run, Offered, Frames, Walk;
    RunConserves(es);
    DistinctCount(Offered(es), k);
  }
}
