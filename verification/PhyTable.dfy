/** The conditional register tables of the PHY: tiles of two 32-bit words, and the two-flag
    interpreter that selects among if/elif/else branches. */
module PhyTable {
  type Word = bv32

  datatype Tile = Tile(first: Word, second: Word)

  /** The fields of a condition word that the interpreter looks at. */
  datatype Cond = Cond(rfe: Word, intf: Word, pkg: Word, cut: Word)

  predicate Pos(w: Word) { w & 0x8000_0000 != 0 }
  predicate Neg(w: Word) { w & 0x4000_0000 != 0 }
  function BranchOf(w: Word): Word { (w >> 28) & 3 }

  const BRANCH_IF: Word := 0
  const BRANCH_ELIF: Word := 1
  const BRANCH_ELSE: Word := 2
  const BRANCH_ENDIF: Word := 3

  function CondOf(w: Word): Cond {
    Cond(w & 0xff, (w >> 8) & 0xf, (w >> 12) & 0xf, (w >> 24) & 0xf)
  }

  /** A zero field matches anything, except that the front-end type must be equal. */
  predicate Matches(c: Cond, drv: Cond) {
    && (c.cut == 0 || c.cut == drv.cut)
    && (c.pkg == 0 || c.pkg == drv.pkg)
    && (c.intf == 0 || c.intf == drv.intf)
    && c.rfe == drv.rfe
  }

  // ------------------------------------------------ the interpreter

  /** `out` is what has been applied so far. */
  datatype State = State(cond: Cond, matched: bool, skipped: bool, out: seq<Tile>)

  function Step(s: State, t: Tile, drv: Cond): State {
    var w := t.first;
    if Pos(w) then
      if BranchOf(w) == BRANCH_ENDIF then s.(matched := true, skipped := false)
      else if BranchOf(w) == BRANCH_ELSE then s.(matched := !s.skipped)
      else s.(cond := CondOf(w))
    else if Neg(w) then
      if s.skipped then s.(matched := false)
      else if Matches(s.cond, drv) then s.(matched := true, skipped := true)
      else s.(matched := false)
    else if s.matched then s.(out := s.out + [t])
    else s
  }

  function Interpret(s: State, ts: seq<Tile>, drv: Cond): State
    decreases |ts|
  {
    if ts == [] then s else Interpret(Step(s, ts[0], drv), ts[1..], drv)
  }

  /** The loop over the table, as written. */
  method ParseTable(ts: seq<Tile>, drv: Cond) returns (applied: seq<Tile>)
    ensures applied == Interpret(State(Cond(0, 0, 0, 0), true, false, []), ts, drv).out
  {
    hide Pos, Neg, BranchOf, CondOf, Matches;
    var cond := Cond(0, 0, 0, 0);
    var matched, skipped := true, false;
    applied := [];
    ghost var start := State(cond, true, false, []);
    for i := 0 to |ts|
      invariant Interpret(State(cond, matched, skipped, applied), ts[i..], drv) == Interpret(start, ts, drv)
    {
      var w := ts[i].first;
      assert ts[i..][0] == ts[i] && ts[i..][1..] == ts[i + 1..];
      if Pos(w) {
        if BranchOf(w) == BRANCH_ENDIF { matched, skipped := true, false; }
        else if BranchOf(w) == BRANCH_ELSE { matched := if skipped then false else true; }
        else { cond := CondOf(w); }
      } else if Neg(w) {
        if !skipped {
          if Matches(cond, drv) { matched, skipped := true, true; } else { matched, skipped := false, false; }
        } else {
          matched := false;
        }
      } else if matched {
        applied := applied + [ts[i]];
      }
    }
  }

  // ------------------------------------------------ structured programs

  /** One branch: its condition and the entries it guards. */
  datatype Branch = Branch(cond: Cond, body: seq<Tile>)

  datatype Item =
    | Entry(tile: Tile)
    | Choice(branches: seq<Branch>, otherwise: seq<Tile>, hasElse: bool)

  predicate IsEntry(t: Tile) { !Pos(t.first) && !Neg(t.first) }

  ghost predicate AllEntries(ts: seq<Tile>) { forall i :: 0 <= i < |ts| ==> IsEntry(ts[i]) }

  predicate Fits(c: Cond) { c.rfe <= 0xff && c.intf <= 0xf && c.pkg <= 0xf && c.cut <= 0xf }

  ghost predicate WellFormed(i: Item) {
    match i
    case Entry(t) => IsEntry(t)
    case Choice(bs, other, has) =>
      && bs != [] && AllEntries(other) && (!has ==> other == [])
      && forall k :: 0 <= k < |bs| ==> Fits(bs[k].cond) && AllEntries(bs[k].body)
  }

  function CondWord(c: Cond, branch: Word): Word {
    0x8000_0000 | (branch << 28) | (c.cut << 24) | (c.pkg << 12) | (c.intf << 8) | c.rfe
  }

  const NEG_TILE := Tile(0x4000_0000, 0)
  const ELSE_TILE := Tile(0xA000_0000, 0)
  const ENDIF_TILE := Tile(0xB000_0000, 0)

  /** if, then elif for every further branch. */
  function FlattenBranches(bs: seq<Branch>, first: bool): seq<Tile> {
    if bs == [] then []
    else
      var guard := [Tile(CondWord(bs[0].cond, if first then BRANCH_IF else BRANCH_ELIF), 0), NEG_TILE];
      guard + bs[0].body + FlattenBranches(bs[1..], false)
  }

  function FlattenItem(i: Item): seq<Tile> {
    match i
    case Entry(t) => [t]
    case Choice(bs, other, has) =>
      FlattenBranches(bs, true) + (if has then [ELSE_TILE] + other else []) + [ENDIF_TILE]
  }

  function Flatten(p: seq<Item>): seq<Tile> {
    if p == [] then [] else FlattenItem(p[0]) + Flatten(p[1..])
  }

  /** The entries a program applies: of the first matching branch, or of the else. */
  function Chosen(bs: seq<Branch>, other: seq<Tile>, drv: Cond): seq<Tile> {
    if bs == [] then other else if Matches(bs[0].cond, drv) then bs[0].body else Chosen(bs[1..], other, drv)
  }

  function ItemMeaning(i: Item, drv: Cond): seq<Tile> {
    match i
    case Entry(t) => [t]
    case Choice(bs, other, _) => Chosen(bs, other, drv)
  }

  function Meaning(p: seq<Item>, drv: Cond): seq<Tile> {
    if p == [] then [] else ItemMeaning(p[0], drv) + Meaning(p[1..], drv)
  }

  // ------------------------------------------------ the interpreter preserves meaning

  lemma CondWordReads(c: Cond, branch: Word)
    requires Fits(c) && branch <= 1
    ensures Pos(CondWord(c, branch)) && BranchOf(CondWord(c, branch)) == branch && CondOf(CondWord(c, branch)) == c
  {}

  lemma MarkerTiles()
    ensures !Pos(NEG_TILE.first) && Neg(NEG_TILE.first)
    ensures Pos(ELSE_TILE.first) && BranchOf(ELSE_TILE.first) == BRANCH_ELSE
    ensures Pos(ENDIF_TILE.first) && BranchOf(ENDIF_TILE.first) == BRANCH_ENDIF
  {}

  lemma {:induction false} InterpretConcat(s: State, a: seq<Tile>, b: seq<Tile>, drv: Cond)
    ensures Interpret(s, a + b, drv) == Interpret(Interpret(s, a, drv), b, drv)
    decreases |a|
  {
    hide Step;
    if a == [] {
      assert a + b == b;
    } else {
      InterpretConcat(Step(s, a[0], drv), a[1..], b, drv);
      assert (a + b)[1..] == a[1..] + b;
    }
  }

  lemma {:induction false} InterpretEntries(s: State, ts: seq<Tile>, drv: Cond)
    requires AllEntries(ts)
    ensures Interpret(s, ts, drv) == if s.matched then s.(out := s.out + ts) else s
    decreases |ts|
  {
    hide Pos, Neg, BranchOf;
    if ts != [] {
      InterpretEntries(Step(s, ts[0], drv), ts[1..], drv);
      assert s.out + [ts[0]] + ts[1..] == s.out + ts;
    } else {
      assert s.out + ts == s.out;
    }
  }

  /** Two tiles select or reject a branch. */
  lemma InterpretGuard(s: State, c: Cond, branch: Word, drv: Cond)
    requires Fits(c) && branch <= 1
    ensures Interpret(s, [Tile(CondWord(c, branch), 0), NEG_TILE], drv) ==
      if s.skipped then s.(cond := c, matched := false)
      else s.(cond := c, matched := Matches(c, drv), skipped := Matches(c, drv))
  {
    hide Pos, Neg, BranchOf, CondOf, CondWord, Matches;
    CondWordReads(c, branch);
    MarkerTiles();
    var a, b := Tile(CondWord(c, branch), 0), NEG_TILE;
    assert [a, b][1..] == [b] && [b][1..] == [];
    assert Interpret(Step(Step(s, a, drv), b, drv), [], drv) == Step(Step(s, a, drv), b, drv);
  }

  ghost predicate GoodBranches(bs: seq<Branch>) {
    forall k :: 0 <= k < |bs| ==> Fits(bs[k].cond) && AllEntries(bs[k].body)
  }

  /** The output of a list of branches, and whether one of them was taken. */
  lemma {:induction false} InterpretBranches(s: State, bs: seq<Branch>, first: bool, drv: Cond)
    requires GoodBranches(bs)
    ensures var t := Interpret(s, FlattenBranches(bs, first), drv);
      if s.skipped then t.out == s.out && t.skipped
      else
        && t.out == s.out + Chosen(bs, [], drv)
        && (t.skipped <==> exists k :: 0 <= k < |bs| && Matches(bs[k].cond, drv))
    decreases |bs|
  {
    hide Matches, Step, CondWord;
    if bs == [] {
      assert s.out + [] == s.out;
    } else {
      var b := bs[0];
      var branch := if first then BRANCH_IF else BRANCH_ELIF;
      var guard := [Tile(CondWord(b.cond, branch), 0), NEG_TILE];
      var rest := FlattenBranches(bs[1..], false);
      InterpretConcat(s, guard + b.body, rest, drv);
      InterpretConcat(s, guard, b.body, drv);
      InterpretGuard(s, b.cond, branch, drv);
      var s1 := Interpret(s, guard, drv);
      InterpretEntries(s1, b.body, drv);
      InterpretBranches(Interpret(s1, b.body, drv), bs[1..], false, drv);
      assert Matches(bs[0].cond, drv) || forall k :: 0 <= k < |bs| && Matches(bs[k].cond, drv) ==> bs[1..][k - 1] == bs[k];
    }
  }

  lemma {:induction false} ChosenElse(bs: seq<Branch>, other: seq<Tile>, drv: Cond)
    ensures Chosen(bs, other, drv) ==
      if exists k :: 0 <= k < |bs| && Matches(bs[k].cond, drv) then Chosen(bs, [], drv) else other
    ensures (!exists k :: 0 <= k < |bs| && Matches(bs[k].cond, drv)) ==> Chosen(bs, [], drv) == []
    decreases |bs|
  {
    hide Matches;
    if bs != [] && !Matches(bs[0].cond, drv) {
      ChosenElse(bs[1..], other, drv);
      assert forall k :: 0 <= k < |bs| && Matches(bs[k].cond, drv) ==> bs[1..][k - 1] == bs[k];
      assert forall k :: 0 <= k < |bs[1..]| ==> bs[1..][k] == bs[k + 1];
    }
  }

  ghost predicate Open(s: State) { s.matched && !s.skipped }

  lemma InterpretMarkers(s: State, drv: Cond)
    ensures Interpret(s, [ELSE_TILE], drv) == s.(matched := !s.skipped)
    ensures Interpret(s, [ENDIF_TILE], drv) == s.(matched := true, skipped := false)
  {
    hide Pos, Neg, BranchOf;
    MarkerTiles();
    assert [ELSE_TILE][1..] == [] && [ENDIF_TILE][1..] == [];
    assert Interpret(Step(s, ELSE_TILE, drv), [], drv) == Step(s, ELSE_TILE, drv);
  }

  lemma InterpretItem(s: State, i: Item, drv: Cond)
    requires WellFormed(i) && Open(s)
    ensures var t := Interpret(s, FlattenItem(i), drv);
      Open(t) && t.out == s.out + ItemMeaning(i, drv)
  {
    hide Matches, Step, FlattenBranches;
    match i
    case Entry(t) => InterpretEntries(s, [t], drv);
    case Choice(bs, other, has) =>
      var flat := FlattenBranches(bs, true);
      var els := if has then [ELSE_TILE] + other else [];
      InterpretConcat(s, flat + els, [ENDIF_TILE], drv);
      InterpretConcat(s, flat, els, drv);
      InterpretBranches(s, bs, true, drv);
      ChosenElse(bs, other, drv);
      var s1 := Interpret(s, flat, drv);
      if has {
        InterpretConcat(s1, [ELSE_TILE], other, drv);
        InterpretMarkers(s1, drv);
        InterpretEntries(Interpret(s1, [ELSE_TILE], drv), other, drv);
      }
      InterpretMarkers(Interpret(s1, els, drv), drv);
  }

  /** Interpreting the flattening of a structured program applies exactly the entries the
      program means, in order, and ends outside any branch. */
  lemma {:induction false} InterpretPreservesMeaning(s: State, p: seq<Item>, drv: Cond)
    requires Open(s) && forall k :: 0 <= k < |p| ==> WellFormed(p[k])
    ensures var t := Interpret(s, Flatten(p), drv);
      Open(t) && t.out == s.out + Meaning(p, drv)
    decreases |p|
  {
    hide FlattenItem, ItemMeaning, Step, WellFormed;
    if p == [] {
      assert s.out + [] == s.out;
    } else {
      InterpretConcat(s, FlattenItem(p[0]), Flatten(p[1..]), drv);
      InterpretItem(s, p[0], drv);
      InterpretPreservesMeaning(Interpret(s, FlattenItem(p[0]), drv), p[1..], drv);
    }
  }

  // ------------------------------------------------ which chips a branch applies to

  /** What the driver compares with: cut and package, 15 when unknown, PCIe, the front-end option. */
  function DriverCond(cut: Word, pkg: Word, rfe: Word): Cond {
    Cond(rfe & 0xff, 1, (if pkg != 0 then pkg else 15) & 0xf, (if cut != 0 then cut else 15) & 0xf)
  }

  /** A chain with one condition applies to the chips of that front end, and in each of the other fields
      to all when it is zero there and else to the equal ones. */
  lemma OneCondition(s: State, c: Cond, body: seq<Tile>, other: seq<Tile>, drv: Cond)
    requires Open(s) && Fits(c) && AllEntries(body) && AllEntries(other)
    ensures var t := Interpret(s, FlattenItem(Choice([Branch(c, body)], other, true)), drv);
      var applies := c.rfe == drv.rfe && c.intf in {0, drv.intf} && c.pkg in {0, drv.pkg} && c.cut in {0, drv.cut};
      t.out == s.out + if applies then body else other
  {
    hide Pos, Neg, FlattenItem, Step;
    InterpretItem(s, Choice([Branch(c, body)], other, true), drv);
    assert [Branch(c, body)][1..] == [];
    assert Chosen([], other, drv) == other;
  }

  /** The chain that guards most of the driver's tables, word for word. */
  function TableChain(a: seq<Tile>, b: seq<Tile>, other: seq<Tile>): seq<Tile> {
    [Tile(0x80001004, 0), Tile(0x40000000, 0)] + a + [Tile(0x90001005, 0), Tile(0x40000000, 0)] + b
    + [Tile(0xA0000000, 0)] + other + [Tile(0xB0000000, 0)]
  }

  lemma TableChainIs(a: seq<Tile>, b: seq<Tile>, other: seq<Tile>)
    ensures TableChain(a, b, other) ==
      FlattenItem(Choice([Branch(Cond(4, 0, 1, 0), a), Branch(Cond(5, 0, 1, 0), b)], other, true))
  {
    hide CondWord;
    var x, y := Branch(Cond(4, 0, 1, 0), a), Branch(Cond(5, 0, 1, 0), b);
    var first, second := [Tile(0x80001004, 0), Tile(0x40000000, 0)], [Tile(0x90001005, 0), Tile(0x40000000, 0)];
    ChainWords();
    assert [x, y][1..] == [y] && [y][1..] == [];
    assert FlattenBranches([], false) == [];
    assert FlattenBranches([y], false) == second + b + [];
    assert FlattenBranches([x, y], true) == first + a + FlattenBranches([y], false);
    assert first + a + (second + b + []) + ([Tile(0xA0000000, 0)] + other) == first + a + second + b + [Tile(0xA0000000, 0)] + other;
  }

  lemma ChainWords()
    ensures CondWord(Cond(4, 0, 1, 0), 0) == 0x80001004 && CondWord(Cond(5, 0, 1, 0), 1) == 0x90001005
  {}

  /** Its first part is for front end 4 and its second for front end 5 in package 1, whatever the cut;
      all other chips take the last part. */
  lemma TableChainApplies(s: State, a: seq<Tile>, b: seq<Tile>, other: seq<Tile>, cut: Word, pkg: Word, rfe: Word)
    requires Open(s) && AllEntries(a) && AllEntries(b) && AllEntries(other) && pkg < 16 && rfe < 0x20
    ensures var t := Interpret(s, TableChain(a, b, other), DriverCond(cut, pkg, rfe));
      t.out == s.out + if pkg == 1 && rfe == 4 then a else if pkg == 1 && rfe == 5 then b else other
  {
    hide Pos, Neg, TableChain, FlattenItem, Step, DriverCond, Matches;
    var x, y := Branch(Cond(4, 0, 1, 0), a), Branch(Cond(5, 0, 1, 0), b);
    TableChainIs(a, b, other);
    InterpretItem(s, Choice([x, y], other, true), DriverCond(cut, pkg, rfe));
    TableConditions(cut, pkg, rfe);
    assert [x, y][1..] == [y] && [y][1..] == [];
    assert Chosen([], other, DriverCond(cut, pkg, rfe)) == other;
    assert Chosen([y], other, DriverCond(cut, pkg, rfe)) == if Matches(y.cond, DriverCond(cut, pkg, rfe)) then b else other;
  }

  lemma TableConditions(cut: Word, pkg: Word, rfe: Word)
    requires pkg < 16 && rfe < 0x20
    ensures Matches(Cond(4, 0, 1, 0), DriverCond(cut, pkg, rfe)) <==> pkg == 1 && rfe == 4
    ensures Matches(Cond(5, 0, 1, 0), DriverCond(cut, pkg, rfe)) <==> pkg == 1 && rfe == 5
  {}
}
