/** The two parties of a Block Ack session: an originator with a transmit window and the
    reorder window, over a channel that loses, delays, reorders and repeats frames. */
module BlockAck {
  import opened SeqNum
  import opened ReorderSpec
  import opened ReorderRuns

  /** `w` is the originator's WinStart, `sent` every number it ever put on the air. */
  datatype Link<F> = Link(w: int, sent: set<int>, r: Tid<F>)

  datatype Move = Forward(to: int) | Send(x: int) | Arrive(x: int, now: nat)

  /** May the move be made? The originator keeps its window of `size` numbers, and what
      arrives was sent and is within half the number space of the receiver's head. */
  predicate Allowed<F>(l: Link<F>, size: nat, m: Move) {
    match m
    case Forward(to) => l.w <= to
    case Send(x) => l.w <= x < l.w + size
    case Arrive(x, _) => x in l.sent && l.r.head - SN_HALF < x <= l.r.head + SN_HALF
  }

  function Make<F>(l: Link<F>, payload: int -> F, m: Move): Link<F> {
    match m
    case Forward(to) => l.(w := to)
    case Send(x) => l.(sent := l.sent + {x})
    case Arrive(x, now) => l.(r := Step(l.r, Frame(Wrap(x), payload(x), now, true)))
  }

  function Play<F>(l: Link<F>, payload: int -> F, ms: seq<Move>): Link<F>
    decreases |ms|
  {
    if ms == [] then l else Make(Play(l, payload, ms[..|ms| - 1]), payload, ms[|ms| - 1])
  }

  ghost predicate Legal<F>(l: Link<F>, size: nat, payload: int -> F, ms: seq<Move>) {
    forall k :: 0 <= k < |ms| ==> Allowed(Play(l, payload, ms[..k]), size, ms[k])
  }

  /** Just after the ADDBA exchange; frames older than the session may still be in the air. */
  ghost predicate Agreed<F(!new)>(l: Link<F>, win: nat) {
    && Safe(l.r) && l.r.active && !l.r.started && l.r.win == win && l.r.head == l.w
    && forall x :: x in l.sent ==> x < l.w
  }

  ghost predicate Received<F>(r: Tid<F>, payload: int -> F, x: int) {
    Released(r.epoch, x, payload(x)) in r.log
  }

  /** Nothing in play has been passed over: what lies between WinStart and the head was delivered. */
  ghost predicate NothingLost<F(!new)>(l: Link<F>, size: nat, payload: int -> F) {
    && Safe(l.r) && l.r.active && l.r.win >= size
    && (forall x :: x in l.sent ==> x < l.w + size)
    && (forall x :: x in l.r.buf ==> l.r.buf[x].frame == payload(x))
    && (forall x :: l.w <= x < l.r.head ==> Received(l.r, payload, x))
    && (!l.r.started ==> l.r.head <= l.w)
  }

  /** An accepted frame lets the head pass only what is below WinStart or delivered. */
  lemma HeadPassesDelivered<F(!new)>(r: Tid<F>, w: int, size: nat, payload: int -> F, x: int, now: nat, y: int)
    requires Safe(r) && r.active && r.win >= size && r.head <= x < w + size && Resolve(r.head, Wrap(x)) == x
    requires forall z :: z in r.buf ==> r.buf[z].frame == payload(z)
    requires var t := Insert(r, Wrap(x), payload(x), now, true); w <= y && r.head <= y < t.head
    ensures Received(Insert(r, Wrap(x), payload(x), now, true), payload, y)
  {
    var r1 := Advance(r.(started := true), SlideTo(r.head, r.win, x));
    if x !in r1.buf {
      var b := r1.buf[x := Entry(payload(x), now)];
      WalkHits(r.epoch, b, r1.head, FirstGap(b, r1.head), y);
    }
  }

  lemma ArriveKeeps<F(!new)>(l: Link<F>, size: nat, payload: int -> F, x: int, now: nat)
    requires NothingLost(l, size, payload) && Allowed(l, size, Arrive(x, now))
    ensures NothingLost(Make(l, payload, Arrive(x, now)), size, payload)
  {
    var r, t := l.r, Insert(l.r, Wrap(x), payload(x), now, true);
    ResolveWrap(r.head, x);
    InsertSafe(r, Wrap(x), payload(x), now, true);
    StepExtendsLog(r, Frame(Wrap(x), payload(x), now, true));
    forall y | l.w <= y < t.head ensures Received(t, payload, y) {
      if y < r.head { assert Received(r, payload, y); }
      else { HeadPassesDelivered(r, l.w, size, payload, x, now, y); }
    }
  }

  lemma {:induction false} PlayKeeps<F(!new)>(l: Link<F>, win: nat, size: nat, payload: int -> F, ms: seq<Move>)
    requires Agreed(l, win) && size <= win && Legal(l, size, payload, ms)
    ensures NothingLost(Play(l, payload, ms), size, payload)
    decreases |ms|
  {
    if ms != [] {
      var n := |ms| - 1;
      assert forall k :: 0 <= k < n ==> ms[..n][..k] == ms[..k];
      PlayKeeps(l, win, size, payload, ms[..n]);
      var p := Play(l, payload, ms[..n]);
      assert Allowed(p, size, ms[n]);
      if ms[n].Arrive? { ArriveKeeps(p, size, payload, ms[n].x, ms[n].now); }
    }
  }

  /** If the originator's window is no larger than ours, then in every run in which no hole
      times out, a frame still in play is dropped as stale only if it was delivered before,
      and as duplicate only if its own number is buffered; otherwise it is kept. */
  lemma InPlayIsSafe<F(!new)>(l: Link<F>, win: nat, size: nat, payload: int -> F, ms: seq<Move>, x: int, now: nat)
    requires Agreed(l, win) && size <= win && Legal(l, size, payload, ms)
    requires var p := Play(l, payload, ms); Allowed(p, size, Arrive(x, now)) && p.w <= x
    ensures var r := Play(l, payload, ms).r;
      var t := Step(r, Frame(Wrap(x), payload(x), now, true));
      && (t.stale != r.stale ==> Received(r, payload, x))
      && (t.dups != r.dups ==> x in r.buf)
      && (Received(t, payload, x) || (x in t.buf && t.buf[x].frame == payload(x)))
  {
    PlayKeeps(l, win, size, payload, ms);
    var r := Play(l, payload, ms).r;
    ResolveWrap(r.head, x);
    InsertFate(r, Wrap(x), payload(x), now, true);
  }

  /** The first frame of a session, `win` or more ahead, makes the window pass its start. */
  lemma SlidePastStart<F(!new)>(r: Tid<F>, payload: int -> F, x: int)
    requires Safe(r) && r.active && !r.started && r.head + r.win <= x <= r.head + SN_HALF
    ensures var t := Step(r, Frame(Wrap(x), payload(x), 0, true));
      && t.active && t.started && r.head < t.head <= x + 1 && t.epoch == r.epoch && t.stale == r.stale
      && !Received(t, payload, r.head)
  {
    ResolveWrap(r.head, x);
    var to := x - r.win + 1;
    var b: Buffer<F> := map[x := Entry(payload(x), 0)];
    var g := FirstGap(b, to);
    WalkEmpty(r.epoch, r.buf, r.head, to);
    assert Without(r.buf, r.head, to) == map[];
    assert Without(r.buf, r.head, to)[x := Entry(payload(x), 0)] == b;
    WalkInRange(r.epoch, b, to, g);
    assert x + 1 !in b;
    var t := Step(r, Frame(Wrap(x), payload(x), 0, true));
    assert t.log == r.log + Walk(r.epoch, b, to, g);
    forall i | 0 <= i < |t.log| ensures t.log[i] != Released(r.epoch, r.head, payload(r.head)) {
      if i < |r.log| { assert Before(r.log[i], r.epoch, r.head); }
      else { assert t.log[i] == Walk(r.epoch, b, to, g)[i - |r.log|]; }
    }
  }

  lemma PlaySnoc<F>(l: Link<F>, payload: int -> F, ms: seq<Move>, m: Move)
    ensures Play(l, payload, ms + [m]) == Make(Play(l, payload, ms), payload, m)
  {
    assert (ms + [m])[..|ms|] == ms;
  }

  lemma PlayThree<F>(l: Link<F>, payload: int -> F, a: Move, b: Move, c: Move)
    ensures var ms := [a, b, c];
      var l1 := Make(l, payload, a);
      var l2 := Make(l1, payload, b);
      && Play(l, payload, ms[..0]) == l && Play(l, payload, ms[..1]) == l1
      && Play(l, payload, ms[..2]) == l2 && Play(l, payload, ms) == Make(l2, payload, c)
  {
    hide Make;
    var ms := [a, b, c];
    PlaySnoc(l, payload, [], a);
    PlaySnoc(l, payload, [a], b);
    PlaySnoc(l, payload, [a, b], c);
    assert ms[..1] == [] + [a] && ms[..2] == [a] + [b] && ms == [a, b] + [c];
  }

  lemma BehindHeadIsStale<F>(r: Tid<F>, x: int, f: F)
    requires r.active && r.started && r.head - SN_HALF < x < r.head
    ensures Step(r, Frame(Wrap(x), f, 0, true)).stale == r.stale + [f]
  {
    ResolveWrap(r.head, x);
  }

  /** With a larger originator window the same claim fails, for every such size: the frame
      just after our window slides past the first one, which is then dropped as stale
      although it is in play and was never delivered. */
  lemma LargerWindowLoses<F(!new)>(l: Link<F>, win: nat, size: nat, payload: int -> F)
    requires Agreed(l, win) && size > win
    ensures var ms := [Send(l.w), Send(l.w + win), Arrive(l.w + win, 0)];
      var p := Play(l, payload, ms);
      && Legal(l, size, payload, ms)
      && Allowed(p, size, Arrive(l.w, 0)) && p.w == l.w
      && !Received(p.r, payload, l.w)
      && Step(p.r, Frame(Wrap(l.w), payload(l.w), 0, true)).stale == p.r.stale + [payload(l.w)]
  {
    hide Step, Received, Play;
    var ms := [Send(l.w), Send(l.w + win), Arrive(l.w + win, 0)];
    PlayThree(l, payload, ms[0], ms[1], ms[2]);
    SlidePastStart(l.r, payload, l.w + win);
    forall k | 0 <= k < |ms| ensures Allowed(Play(l, payload, ms[..k]), size, ms[k]) {
      if k == 0 {} else if k == 1 {} else { assert k == 2; }
    }
    var p := Play(l, payload, ms);
    BehindHeadIsStale(p.r, l.w, payload(l.w));
  }
}
