/** The `stored` counter counts occupied slots. */
module ReorderCount {
  import opened ReorderSpec
  import opened ReorderTids

  ghost function Image(xs: set<int>): set<int> { set x | x in xs :: Idx(x) }

  ghost function Occupied(occ: seq<bool>): set<int> { set i | 0 <= i < |occ| && occ[i] }

  ghost function Below(xs: set<int>, to: int): set<int> { set x | x in xs && x < to }

  /** Numbers of one window have as many slots as there are numbers. */
  lemma {:induction false} ImageSize(xs: set<int>, head: int, k: nat)
    requires k <= WIN_MAX && forall x :: x in xs ==> head <= x < head + WIN_MAX
    ensures |Image(Below(xs, head + k))| == |Below(xs, head + k)|
    decreases k
  {
    if k == 0 {
      assert Below(xs, head) == {} && Image({}) == {};
    } else {
      var x, rest := head + k - 1, Below(xs, head + k - 1);
      ImageSize(xs, head, k - 1);
      if x in xs {
        assert Below(xs, head + k) == rest + {x};
        forall y | y in rest ensures Idx(y) != Idx(x) { SlotsDistinct(x, y); }
        assert Image(rest + {x}) == Image(rest) + {Idx(x)};
      } else {
        assert Below(xs, head + k) == rest;
      }
    }
  }

  /** The window holds as many frames as there are occupied slots. */
  lemma OccupiedCount(a: Slots, head: int, win: nat)
    requires Shaped(a) && Confined(a, head, win)
    ensures |Content(a, head, win)| == |Occupied(a.occ)|
  {
    var c := Content(a, head, win);
    forall i | i in Occupied(a.occ) ensures i in Image(c.Keys) {
      SlotOf(head, i);
      var y :| head <= y < head + WIN_MAX && Idx(y) == i;
      assert y in c;
    }
    forall x | x in c.Keys ensures Idx(x) in Occupied(a.occ) {}
    assert Image(c.Keys) == Occupied(a.occ);
    assert Below(c.Keys, head + WIN_MAX) == c.Keys;
    ImageSize(c.Keys, head, WIN_MAX);
  }

  /** Between and during operations the counter is the number of occupied slots. */
  lemma StoredIsOccupied(t: ReorderTid)
    requires t.Loose()
    ensures t.stored == |Occupied(t.occ[..])|
  {
    OccupiedCount(t.Values(), t.at, t.win);
  }
}
