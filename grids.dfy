/**
 * What a State (State.java) holds, as a value: the 81 cell values and the step
 * counter, and what each State operation does to them. The State class is
 * proved against these functions, and the rules are specified with them.
 */
module Grids {
  import opened Dbc
  import opened Vals
  import opened Cells
  import opened Structure

  type Grid = seq<CellV>

  /** 81 cells, cell i carrying index i, each consistent. */
  predicate WellFormed(g: Grid)
  {
    |g| == 81 && forall i :: 0 <= i < 81 ==> g[i].idx == i && g[i].Consistent()
  }

  /** The cells and the step counter of a State at one moment. */
  datatype Snap = Snap(grid: Grid, steps: int)

  /** A snapshot every State keeps: well-formed cells and a counter that started at 0. */
  predicate Good(s: Snap)
  {
    WellFormed(s.grid) && s.steps >= 0
  }

  /** Where an operation left the state, and whether it completed or raised an error. */
  datatype Step = Step(after: Snap, outcome: Outcome)

  /** How every operation changes cells: candidates are only removed and a decided cell stays decided. */
  predicate Evolves(g: Grid, g': Grid)
  {
    |g| == |g'| &&
    forall i :: 0 <= i < |g| ==> g'[i].vals <= g[i].vals && (g[i].step >= 0 ==> g'[i].step >= 0)
  }

  /** Evolution of a whole snapshot: cells evolve and the step counter never goes down. */
  predicate Progress(s: Snap, t: Snap)
  {
    Evolves(s.grid, t.grid) && s.steps <= t.steps
  }

  /** Progress composes. */
  lemma ProgressTrans(a: Snap, b: Snap, c: Snap)
    requires Progress(a, b) && Progress(b, c)
    ensures Progress(a, c)
  {
  }

  // ---------------------------------------------------------------------------
  // Counting finalized cells (getNumberFinalized)

  /** The number of cells among the first n whose final value is set. */
  function CountFinalUpTo(g: Grid, n: nat): (c: nat)
    requires n <= |g|
    ensures c <= n
  {
    if n == 0 then 0 else CountFinalUpTo(g, n - 1) + (if g[n - 1].step >= 0 then 1 else 0)
  }

  function CountFinal(g: Grid): nat
  {
    CountFinalUpTo(g, |g|)
  }

  /** Evolving never lowers the count, and deciding one more cell raises it. */
  lemma {:induction false} CountFinalMonotone(g: Grid, g': Grid, n: nat)
    requires Evolves(g, g') && n <= |g|
    ensures CountFinalUpTo(g, n) <= CountFinalUpTo(g', n)
    ensures (exists i :: 0 <= i < n && g[i].step < 0 && g'[i].step >= 0) ==> CountFinalUpTo(g, n) < CountFinalUpTo(g', n)
  {
    if n > 0 {
      CountFinalMonotone(g, g', n - 1);
      if g[n - 1].step < 0 && g'[n - 1].step >= 0 {
      } else if exists i :: 0 <= i < n && g[i].step < 0 && g'[i].step >= 0 {
        var i :| 0 <= i < n && g[i].step < 0 && g'[i].step >= 0;
        assert i < n - 1;
      }
    }
  }

  /** A strict increase in the count. */
  lemma CountFinalGrows(g: Grid, g': Grid, i: int)
    requires Evolves(g, g') && 0 <= i < |g| && g[i].step < 0 && g'[i].step >= 0
    ensures CountFinal(g) < CountFinal(g')
  {
    CountFinalMonotone(g, g', |g|);
  }

  /** The count reaches the number of cells exactly when every cell is finalized. */
  lemma {:induction false} CountFinalAll(g: Grid, n: nat)
    requires n <= |g|
    ensures CountFinalUpTo(g, n) == n <==> forall i :: 0 <= i < n ==> g[i].step >= 0
  {
    if n > 0 {
      CountFinalAll(g, n - 1);
    }
  }

  // ---------------------------------------------------------------------------
  // Removing a value (removeValueFromNeighborHood)

  /** removeValueFromNeighborHood on values: v leaves every cell of grp except cell mine. */
  function RemoveFromGroup(g: Grid, v: Val, mine: int, grp: seq<int>): (r: Grid)
    requires |g| == 81
    ensures |r| == 81
  {
    seq(81, j requires 0 <= j < 81 => if j in grp && j != mine then g[j].(vals := g[j].vals - {v}) else g[j])
  }

  /** Walking the group one entry further removes v from that entry too, unless it is cell mine. */
  lemma RemoveFromGroupStep(g: Grid, v: Val, mine: int, grp: seq<int>, k: nat)
    requires |g| == 81 && k < |grp| && 0 <= grp[k] < 81
    ensures var r := RemoveFromGroup(g, v, mine, grp[..k]);
            RemoveFromGroup(g, v, mine, grp[..k + 1]) ==
              if grp[k] == mine then r else r[grp[k] := r[grp[k]].(vals := r[grp[k]].vals - {v})]
  {
    var r := RemoveFromGroup(g, v, mine, grp[..k]);
    var r' := RemoveFromGroup(g, v, mine, grp[..k + 1]);
    var e := if grp[k] == mine then r else r[grp[k] := r[grp[k]].(vals := r[grp[k]].vals - {v})];
    assert grp[..k + 1] == grp[..k] + [grp[k]];
    forall j | 0 <= j < 81
      ensures r'[j] == e[j]
    {
      if j == grp[k] && j != mine {
        assert r[j].vals - {v} == g[j].vals - {v};
      }
    }
  }

  /** v leaves every peer of cell i; nothing else changes. */
  function RemoveFromPeers(g: Grid, v: Val, i: int): (r: Grid)
    requires |g| == 81 && 0 <= i < 81
    ensures |r| == 81
  {
    seq(81, j requires 0 <= j < 81 => if IsPeer(i, j) then g[j].(vals := g[j].vals - {v}) else g[j])
  }

  /** Removing from the row, the column and the block of cell i, as setFinalCellVal does, is removing from its peers. */
  lemma ThreeGroupsArePeers(g: Grid, v: Val, i: int)
    requires |g| == 81 && 0 <= i < 81
    ensures var nh := GetNeighborHood(i);
            RemoveFromGroup(RemoveFromGroup(RemoveFromGroup(g, v, i, nh.h), v, i, nh.v), v, i, nh.b)
            == RemoveFromPeers(g, v, i)
  {
    var nh := GetNeighborHood(i);
    var r := RemoveFromGroup(RemoveFromGroup(RemoveFromGroup(g, v, i, nh.h), v, i, nh.v), v, i, nh.b);
    var p := RemoveFromPeers(g, v, i);
    forall j | 0 <= j < 81
      ensures r[j] == p[j]
    {
      NeighborhoodIsPeers(i, j);
      RemoveThreeAt(g, v, i, nh.h, nh.v, nh.b, j);
    }
  }

  /** Three removals in a row remove v from a cell exactly when one of the three groups holds it. */
  lemma RemoveThreeAt(g: Grid, v: Val, i: int, h: seq<int>, w: seq<int>, b: seq<int>, j: int)
    requires |g| == 81 && 0 <= j < 81
    ensures RemoveFromGroup(RemoveFromGroup(RemoveFromGroup(g, v, i, h), v, i, w), v, i, b)[j]
            == if j != i && (j in h || j in w || j in b) then g[j].(vals := g[j].vals - {v}) else g[j]
  {
    var r1 := RemoveFromGroup(g, v, i, h);
    var r2 := RemoveFromGroup(r1, v, i, w);
    var r3 := RemoveFromGroup(r2, v, i, b);
    if j != i && (j in h || j in w || j in b) {
      assert r3[j].vals == g[j].vals - {v};
    }
  }

  /** Removing a value from peers keeps a grid well-formed and evolves it. */
  lemma RemoveFromPeersEvolves(g: Grid, v: Val, i: int)
    requires WellFormed(g) && 0 <= i < 81
    ensures WellFormed(RemoveFromPeers(g, v, i)) && Evolves(g, RemoveFromPeers(g, v, i))
    ensures forall j :: 0 <= j < 81 ==>
      RemoveFromPeers(g, v, i)[j].step == g[j].step && RemoveFromPeers(g, v, i)[j].rule == g[j].rule
  {
    var r := RemoveFromPeers(g, v, i);
    forall j | 0 <= j < 81
      ensures r[j].idx == j && r[j].Consistent() && r[j].vals <= g[j].vals
    {
      if IsPeer(i, j) {
        SubsetSize(g[j].vals - {v}, g[j].vals);
      }
    }
  }

  lemma SubsetSize(a: set<Val>, b: set<Val>)
    requires a <= b
    ensures |a| <= |b|
  {
    assert b == a + (b - a);
  }

  // ---------------------------------------------------------------------------
  // Validity (valid)

  /** Every cell still has a candidate. */
  predicate NoEmptyDomain(g: Grid)
  {
    forall i :: 0 <= i < |g| ==> g[i].vals != {}
  }

  /** No two single-valued cells of the group hold the same value. */
  predicate GroupDistinct(g: Grid, grp: seq<int>)
  {
    forall p, q :: 0 <= p < q < |grp| && 0 <= grp[p] < |g| && 0 <= grp[q] < |g| &&
                   |g[grp[p]].vals| == 1 && |g[grp[q]].vals| == 1
                   ==> g[grp[p]].vals != g[grp[q]].vals
  }

  /** A valid state: no empty domain, and in every row, column and block the single-valued cells differ. */
  predicate ValidGrid(g: Grid)
  {
    NoEmptyDomain(g) && forall n :: 0 <= n < 27 ==> GroupDistinct(g, AllNeighborhoods[n])
  }

  /** The first cell from k on without a candidate. */
  function FirstEmpty(g: Grid, k: nat): (r: Option<int>)
    requires k <= |g|
    ensures r.Some? ==> k <= r.value < |g| && g[r.value].vals == {}
    ensures r.Some? ==> forall j :: k <= j < r.value ==> g[j].vals != {}
    ensures r.None? <==> forall j :: k <= j < |g| ==> g[j].vals != {}
    decreases |g| - k
  {
    if k == |g| then None
    else if g[k].vals == {} then Some(k)
    else FirstEmpty(g, k + 1)
  }

  /**
   * The scan of one group in valid(), from position k on, with the values of the single-valued
   * cells already met in seen: the index of the first single-valued cell whose value was met before.
   */
  function GroupScan(g: Grid, grp: seq<int>, k: nat, seen: set<Val>): (r: Option<int>)
    requires k <= |grp| && forall m :: 0 <= m < |grp| ==> 0 <= grp[m] < |g|
    ensures r.None? <==>
      (forall q :: k <= q < |grp| && |g[grp[q]].vals| == 1 ==> g[grp[q]].vals !! seen) &&
      (forall p, q :: k <= p < q < |grp| && |g[grp[p]].vals| == 1 && |g[grp[q]].vals| == 1
                      ==> g[grp[p]].vals != g[grp[q]].vals)
    decreases |grp| - k
  {
    if k == |grp| then None
    else
      var c := g[grp[k]];
      if |c.vals| == 1 then
        var v := TheVal(c.vals).value;
        if v in seen then Some(grp[k])
        else
          var r := GroupScan(g, grp, k + 1, seen + {v});
          forall q | k < q < |grp| && |g[grp[q]].vals| == 1
            ensures g[grp[q]].vals !! {v} <==> g[grp[q]].vals != c.vals
          {
            if v in g[grp[q]].vals {
              SingletonOf(g[grp[q]].vals, v);
            }
          }
          r
      else GroupScan(g, grp, k + 1, seen)
  }

  lemma SingletonOf(s: set<Val>, v: Val)
    requires |s| == 1 && v in s
    ensures s == {v}
  {
    assert |s - {v}| == 0;
  }

  /** The scan of the groups n..26 in valid(). */
  function GroupsScan(g: Grid, n: nat): (r: Outcome)
    requires |g| == 81 && n <= 27
    ensures r.Pass? <==> forall m :: n <= m < 27 ==> GroupDistinct(g, AllNeighborhoods[m])
    ensures r.Failed? ==> r.error.DuplicateValue? && n <= r.error.group < 27
    decreases 27 - n
  {
    GroupEntries();
    if n == 27 then Pass
    else
      match GroupScan(g, AllNeighborhoods[n], 0, {})
      case Some(idx) => Failed(DuplicateValue(n, idx))
      case None => GroupsScan(g, n + 1)
  }

  /** valid: first every cell needs a candidate, then every group is scanned; the first violation is reported. */
  function ValidCheck(g: Grid): (r: Outcome)
    requires |g| == 81
    ensures r.Pass? <==> ValidGrid(g)
    ensures r.Failed? ==> r.error.EmptyDomain? || r.error.DuplicateValue?
  {
    match FirstEmpty(g, 0)
    case Some(i) => Failed(EmptyDomain(i))
    case None => GroupsScan(g, 0)
  }

  // ---------------------------------------------------------------------------
  // Deciding a cell (setFinalCellVal)

  /**
   * setFinalCellVal on values: the counter goes up first, so a refused decision
   * is still counted; then the cell is decided at the new step, v leaves all its
   * peers, and the result is checked with valid.
   */
  function SetFinal(s: Snap, i: int, v: Val, rule: char): (r: Step)
    requires Good(s) && 0 <= i < 81
    ensures Good(r.after) && r.after.steps == s.steps + 1 && Evolves(s.grid, r.after.grid)
    ensures forall j :: 0 <= j < 81 && j != i ==> r.after.grid[j].step == s.grid[j].step && r.after.grid[j].rule == s.grid[j].rule
    ensures s.grid[i].step <= 0 && v in s.grid[i].vals ==> r.after.grid[i] == CellV(i, {v}, s.steps + 1, rule)
    ensures r.after.grid[i] == s.grid[i] || r.after.grid[i] == CellV(i, {v}, s.steps + 1, rule)
    ensures r.outcome.Pass? ==> ValidGrid(r.after.grid)
  {
    var n := s.steps + 1;
    match DecideCell(s.grid[i], v, n, rule)
    case Fail(e) => Step(Snap(s.grid, n), Failed(e))
    case Ok(c) =>
      var g0 := s.grid[i := c];
      assert WellFormed(g0) && Evolves(s.grid, g0);
      RemoveFromPeersEvolves(g0, v, i);
      var g := RemoveFromPeers(g0, v, i);
      Step(Snap(g, n), ValidCheck(g))
  }

  /**
   * What setFinalCellVal does: a refused decision leaves every cell as it was and
   * reports the cell's error; an accepted one decides cell i at the new step, removes
   * v from exactly the peers of i, and passes exactly when the result is valid.
   */
  lemma SetFinalEffect(s: Snap, i: int, v: Val, rule: char)
    requires Good(s) && 0 <= i < 81
    ensures var r := SetFinal(s, i, v, rule);
      DecideCell(s.grid[i], v, s.steps + 1, rule).Fail? ==>
        r.after.grid == s.grid && r.outcome == Failed(DecideCell(s.grid[i], v, s.steps + 1, rule).error)
    ensures var r := SetFinal(s, i, v, rule);
      DecideCell(s.grid[i], v, s.steps + 1, rule).Ok? ==>
        r.after.grid[i] == CellV(i, {v}, s.steps + 1, rule) &&
        (forall j :: 0 <= j < 81 && j != i ==>
          r.after.grid[j] == if IsPeer(i, j) then s.grid[j].(vals := s.grid[j].vals - {v}) else s.grid[j]) &&
        (r.outcome.Pass? <==> ValidGrid(r.after.grid))
    ensures var r := SetFinal(s, i, v, rule);
      r.outcome.Pass? ==>
        r.after.grid[i].vals == {v} && r.after.grid[i].step > 0 &&
        forall j :: 0 <= j < 81 && IsPeer(i, j) ==> v !in r.after.grid[j].vals
  {
  }

  /** The accepted case of setFinalCellVal, written out in the order the State method performs it. */
  lemma SetFinalAccepted(s: Snap, i: int, v: Val, rule: char, c: CellV)
    requires Good(s) && 0 <= i < 81 && DecideCell(s.grid[i], v, s.steps + 1, rule) == Ok(c)
    ensures var g := RemoveFromPeers(s.grid[i := c], v, i);
            SetFinal(s, i, v, rule) == Step(Snap(g, s.steps + 1), ValidCheck(g))
  {
  }

  /** The refused case of setFinalCellVal: only the counter moves. */
  lemma SetFinalRefused(s: Snap, i: int, v: Val, rule: char)
    requires Good(s) && 0 <= i < 81 && DecideCell(s.grid[i], v, s.steps + 1, rule).Fail?
    ensures SetFinal(s, i, v, rule) == Step(Snap(s.grid, s.steps + 1), Failed(DecideCell(s.grid[i], v, s.steps + 1, rule).error))
  {
  }

  /** Deciding keeps the clue invariant when it succeeds. */
  lemma SetFinalKeepsClues(s: Snap, i: int, v: Val, rule: char)
    requires Good(s) && 0 <= i < 81 && InitPropagated(s.grid)
    requires SetFinal(s, i, v, rule).outcome.Pass?
    ensures InitPropagated(SetFinal(s, i, v, rule).after.grid)
  {
    SetFinalEffect(s, i, v, rule);
    var g := s.grid;
    var g' := SetFinal(s, i, v, rule).after.grid;
    forall j | 0 <= j < 81 && g'[j].rule == 'I'
      ensures |g'[j].vals| == 1 && forall p :: 0 <= p < 81 && IsPeer(j, p) ==> g'[p].vals !! g'[j].vals
    {
      assert g'[j].vals != {};
      if j == i {
        assert g'[j].vals == {v};
      } else {
        assert g[j].rule == 'I';
        var w := TheVal(g[j].vals).value;
        assert g'[j].vals <= {w};
        assert g'[j].vals == {w};
        forall p | 0 <= p < 81 && IsPeer(j, p)
          ensures g'[p].vals !! g'[j].vals
        {
          assert g'[p].vals <= g[p].vals;
        }
      }
    }
  }

  // ---------------------------------------------------------------------------
  // The exclusion query (isValImpossibleInNeighborhood, valImpossibleInAtLeastOneNeighborhood)

  /** No cell of the group other than cell mine still has v as a candidate. */
  predicate ImpossibleInGroup(g: Grid, v: Val, mine: int, grp: seq<int>)
  {
    forall j :: j in grp && j != mine && 0 <= j < |g| ==> v !in g[j].vals
  }

  /** In at least one of the row, column and block of cell i, v has no other place. */
  predicate ImpossibleSomewhere(g: Grid, v: Val, i: int)
    requires 0 <= i < 81
  {
    var nh := GetNeighborHood(i);
    ImpossibleInGroup(g, v, i, nh.h) || ImpossibleInGroup(g, v, i, nh.v) || ImpossibleInGroup(g, v, i, nh.b)
  }

  /** The query as a search through the stream of the three groups getNeighborHood returns. */
  lemma ImpossibleSomewhereSplit(g: Grid, v: Val, i: int)
    requires 0 <= i < 81
    ensures ImpossibleSomewhere(g, v, i) <==>
      exists m :: 0 <= m < 3 && ImpossibleInGroup(g, v, i, GetNeighborHood(i).Get()[m])
  {
    var groups := GetNeighborHood(i).Get();
    if ImpossibleSomewhere(g, v, i) {
      if ImpossibleInGroup(g, v, i, groups[0]) {
      } else if ImpossibleInGroup(g, v, i, groups[1]) {
      } else {
        assert ImpossibleInGroup(g, v, i, groups[2]);
      }
    }
  }

  /** The query read by rows, columns and blocks of the grid. */
  lemma ImpossibleSomewhereMeaning(g: Grid, v: Val, i: int)
    requires |g| == 81 && 0 <= i < 81
    ensures ImpossibleSomewhere(g, v, i) <==>
      (forall j :: 0 <= j < 81 && j != i && Row(j) == Row(i) ==> v !in g[j].vals) ||
      (forall j :: 0 <= j < 81 && j != i && Col(j) == Col(i) ==> v !in g[j].vals) ||
      (forall j :: 0 <= j < 81 && j != i && Block(j) == Block(i) ==> v !in g[j].vals)
  {
    RowImpossible(g, v, i);
    ColImpossible(g, v, i);
    BlockImpossible(g, v, i);
  }

  lemma RowImpossible(g: Grid, v: Val, i: int)
    requires |g| == 81 && 0 <= i < 81
    ensures ImpossibleInGroup(g, v, i, AllH[Row(i)]) <==>
      forall j :: 0 <= j < 81 && j != i && Row(j) == Row(i) ==> v !in g[j].vals
  {
    forall j | 0 <= j < 81
      ensures j in AllH[Row(i)] <==> Row(j) == Row(i)
    {
      RowMembers(Row(i), j);
    }
    GroupEntries();
  }

  lemma ColImpossible(g: Grid, v: Val, i: int)
    requires |g| == 81 && 0 <= i < 81
    ensures ImpossibleInGroup(g, v, i, AllV[Col(i)]) <==>
      forall j :: 0 <= j < 81 && j != i && Col(j) == Col(i) ==> v !in g[j].vals
  {
    forall j | 0 <= j < 81
      ensures j in AllV[Col(i)] <==> Col(j) == Col(i)
    {
      ColMembers(Col(i), j);
    }
    GroupEntries();
  }

  lemma BlockImpossible(g: Grid, v: Val, i: int)
    requires |g| == 81 && 0 <= i < 81
    ensures ImpossibleInGroup(g, v, i, AllB[Block(i)]) <==>
      forall j :: 0 <= j < 81 && j != i && Block(j) == Block(i) ==> v !in g[j].vals
  {
    forall j | 0 <= j < 81
      ensures j in AllB[Block(i)] <==> Block(j) == Block(i)
    {
      BlockMembers(Block(i), j);
    }
    GroupEntries();
  }

  // ---------------------------------------------------------------------------
  // Construction and cloning (the State constructor, propagateInitialValues, clone)

  /** Every clue has one candidate, and no peer of a clue still has it. */
  predicate InitPropagated(g: Grid)
    requires |g| == 81
  {
    forall j :: 0 <= j < 81 && g[j].rule == 'I' ==>
      |g[j].vals| == 1 && forall p :: 0 <= p < 81 && IsPeer(j, p) ==> g[p].vals !! g[j].vals
  }

  /** The clues before position k: at most one candidate each, shared with no peer. */
  predicate CluesPropagatedUpTo(g: Grid, k: int)
    requires |g| == 81
  {
    forall j :: 0 <= j < k && j < 81 && g[j].rule == 'I' ==>
      |g[j].vals| <= 1 && forall p :: 0 <= p < 81 && IsPeer(j, p) ==> g[p].vals !! g[j].vals
  }

  /** Where propagateInitialValues left the cells, and whether it completed. */
  datatype Propagation = Propagation(grid: Grid, outcome: Outcome)

  /**
   * propagateInitialValues from cell k on: each clue's only candidate leaves its peers;
   * a clue without exactly one candidate (a conflict with an earlier clue) fails.
   */
  function PropagateInit(g: Grid, k: nat): (r: Propagation)
    requires WellFormed(g) && k <= 81
    ensures WellFormed(r.grid) && Evolves(g, r.grid)
    ensures forall j :: 0 <= j < 81 ==> r.grid[j].step == g[j].step && r.grid[j].rule == g[j].rule
    ensures r.outcome.Pass? && CluesPropagatedUpTo(g, k) ==> CluesPropagatedUpTo(r.grid, 81)
    ensures r.outcome.Failed? ==> r.outcome.error == NotSingleValued
    decreases 81 - k
  {
    if k == 81 then Propagation(g, Pass)
    else if g[k].rule == 'I' then
      match TheVal(g[k].vals)
      case Fail(e) => Propagation(g, Failed(e))
      case Ok(v) =>
        RemoveFromPeersEvolves(g, v, k);
        var g' := RemoveFromPeers(g, v, k);
        var r := PropagateInit(g', k + 1);
        if r.outcome.Pass? && CluesPropagatedUpTo(g, k) then
          PropagateStep(g, v, k);
          r
        else r
    else PropagateInit(g, k + 1)
  }

  /** One clue's propagation extends the invariant by that clue. */
  lemma PropagateStep(g: Grid, v: Val, k: int)
    requires WellFormed(g) && 0 <= k < 81 && g[k].rule == 'I' && g[k].vals == {v}
    requires CluesPropagatedUpTo(g, k)
    ensures CluesPropagatedUpTo(RemoveFromPeers(g, v, k), k + 1)
  {
    var g' := RemoveFromPeers(g, v, k);
    RemoveFromPeersEvolves(g, v, k);
    forall j | 0 <= j < k + 1 && g'[j].rule == 'I'
      ensures |g'[j].vals| <= 1 && forall p :: 0 <= p < 81 && IsPeer(j, p) ==> g'[p].vals !! g'[j].vals
    {
      if j < k {
        SubsetSize(g'[j].vals, g[j].vals);
        forall p | 0 <= p < 81 && IsPeer(j, p)
          ensures g'[p].vals !! g'[j].vals
        {
          assert g'[p].vals <= g[p].vals;
        }
      } else {
        assert g'[j] == g[j];
      }
    }
  }

  /** Some clue at or after position k, a peer of cell p, holds exactly the value v. */
  predicate RemovedByClue(h: Grid, k: int, p: int, v: Val)
    requires |h| == 81 && 0 <= p < 81
  {
    exists j :: k <= j < 81 && 0 <= j && h[j].rule == 'I' && IsPeer(j, p) && h[j].vals == {v}
  }

  /** Every clue from position k on ends in h with exactly one candidate. */
  predicate CluesSingleFrom(g: Grid, h: Grid, k: int)
    requires |g| == 81 && |h| == 81
  {
    forall j :: k <= j < 81 && 0 <= j && g[j].rule == 'I' ==> |h[j].vals| == 1
  }

  /** Every decided clue from position k on keeps in h exactly the candidate it had in g. */
  predicate CluesKeptFrom(g: Grid, h: Grid, k: int)
    requires |g| == 81 && |h| == 81
  {
    forall j :: k <= j < 81 && 0 <= j && g[j].rule == 'I' && g[j].step >= 0 ==> h[j].vals == g[j].vals
  }

  /** Cell p keeps a candidate of g in h exactly when no clue from k on among its peers holds it. */
  predicate OnlyCluesRemovedFrom(g: Grid, h: Grid, k: int)
    requires |g| == 81 && |h| == 81
  {
    forall p, v :: 0 <= p < 81 ==> (v in h[p].vals <==> v in g[p].vals && !RemovedByClue(h, k, p, v))
  }

  /** The clue at k keeps its value v when the clues after it were propagated exactly. */
  lemma ClueKeepsValue(g: Grid, h: Grid, v: Val, k: int)
    requires WellFormed(g) && 0 <= k < 81 && g[k].rule == 'I' && g[k].vals == {v} && |h| == 81
    requires Evolves(RemoveFromPeers(g, v, k), h)
    requires forall j :: 0 <= j < 81 ==> h[j].rule == g[j].rule
    requires OnlyCluesRemovedFrom(RemoveFromPeers(g, v, k), h, k + 1)
    ensures h[k].vals == {v}
  {
    var g' := RemoveFromPeers(g, v, k);
    forall j | k + 1 <= j < 81 && IsPeer(j, k)
      ensures v !in h[j].vals
    {
      assert v !in g'[j].vals;
    }
    assert !RemovedByClue(h, k + 1, k, v);
    assert v in g'[k].vals;
  }

  /** Propagating the clue at k, then the later clues exactly, is an exact propagation from k. */
  lemma ClueStepExact(g: Grid, h: Grid, v: Val, k: int)
    requires WellFormed(g) && 0 <= k < 81 && g[k].rule == 'I' && g[k].vals == {v} && |h| == 81
    requires Evolves(RemoveFromPeers(g, v, k), h)
    requires forall j :: 0 <= j < 81 ==> h[j].rule == g[j].rule
    requires OnlyCluesRemovedFrom(RemoveFromPeers(g, v, k), h, k + 1)
    requires CluesSingleFrom(RemoveFromPeers(g, v, k), h, k + 1)
    ensures h[k].vals == {v} && OnlyCluesRemovedFrom(g, h, k) && CluesSingleFrom(g, h, k)
  {
    var g' := RemoveFromPeers(g, v, k);
    ClueKeepsValue(g, h, v, k);
    forall p, w | 0 <= p < 81
      ensures w in h[p].vals <==> w in g[p].vals && !RemovedByClue(h, k, p, w)
    {
      if w in h[p].vals {
        assert !RemovedByClue(h, k + 1, p, w);
        forall j | k <= j < 81 && h[j].rule == 'I' && IsPeer(j, p)
          ensures h[j].vals != {w}
        {
          if j == k {
            assert w in g'[p].vals;
          }
        }
      } else if w in g[p].vals {
        if w in g'[p].vals {
          var j :| k + 1 <= j < 81 && h[j].rule == 'I' && IsPeer(j, p) && h[j].vals == {w};
        } else {
          assert h[k].rule == 'I' && IsPeer(k, p) && h[k].vals == {w};
        }
      }
    }
  }

  /** Passing over a cell that is not a clue keeps an exact propagation exact. */
  lemma OtherStepExact(g: Grid, h: Grid, k: int)
    requires |g| == 81 && |h| == 81 && 0 <= k < 81 && g[k].rule != 'I'
    requires forall j :: 0 <= j < 81 ==> h[j].rule == g[j].rule
    requires OnlyCluesRemovedFrom(g, h, k + 1) && CluesSingleFrom(g, h, k + 1)
    ensures OnlyCluesRemovedFrom(g, h, k) && CluesSingleFrom(g, h, k)
  {
    forall p, w | 0 <= p < 81 && RemovedByClue(h, k, p, w)
      ensures RemovedByClue(h, k + 1, p, w)
    {
      var j :| k <= j < 81 && h[j].rule == 'I' && IsPeer(j, p) && h[j].vals == {w};
      assert j != k;
    }
  }

  /** A clue left with one candidate of a decided cell's at most one keeps exactly that candidate. */
  lemma DecidedClueKept(c: CellV, d: CellV)
    requires c.Consistent() && c.step >= 0 && d.vals <= c.vals && |d.vals| == 1
    ensures d.vals == c.vals
  {
    var w :| w in d.vals;
    SingletonOf(d.vals, w);
    SubsetSize(d.vals, c.vals);
    SingletonOf(c.vals, w);
  }

  /** A decided clue left with one candidate keeps the candidate it had. */
  lemma DecidedCluesKept(g: Grid, h: Grid, k: int)
    requires WellFormed(g) && |h| == 81 && Evolves(g, h) && CluesSingleFrom(g, h, k)
    ensures CluesKeptFrom(g, h, k)
  {
    forall j | k <= j < 81 && 0 <= j && g[j].rule == 'I' && g[j].step >= 0
      ensures h[j].vals == g[j].vals
    {
      DecidedClueKept(g[j], h[j]);
    }
  }

  /**
   * A completed propagation from cell k removes nothing but the clues' values:
   * every clue from k on ends with one candidate, and a cell keeps a candidate
   * exactly when no clue among its peers holds it.
   */
  lemma {:induction false} PropagateExact(g: Grid, k: nat)
    requires WellFormed(g) && k <= 81
    ensures var r := PropagateInit(g, k);
      r.outcome.Pass? ==> CluesSingleFrom(g, r.grid, k) && OnlyCluesRemovedFrom(g, r.grid, k)
    decreases 81 - k
  {
    var r := PropagateInit(g, k);
    if k == 81 || r.outcome.Failed? {
      return;
    }
    if g[k].rule == 'I' {
      var v := TheVal(g[k].vals).value;
      RemoveFromPeersEvolves(g, v, k);
      var g' := RemoveFromPeers(g, v, k);
      assert r == PropagateInit(g', k + 1);
      PropagateExact(g', k + 1);
      ClueStepExact(g, r.grid, v, k);
    } else {
      assert r == PropagateInit(g, k + 1);
      PropagateExact(g, k + 1);
      OtherStepExact(g, r.grid, k);
    }
  }

  /** The State constructor on values: clues propagated, then valid; the counter starts at 0. */
  function Construct(g: Grid): (r: Result<Snap>)
    requires WellFormed(g)
    ensures r.Ok? ==> Good(r.value) && r.value.steps == 0 && Evolves(g, r.value.grid)
    ensures r.Ok? ==> ValidGrid(r.value.grid) && InitPropagated(r.value.grid)
    ensures r.Fail? ==> r.error == NotSingleValued || r.error.EmptyDomain? || r.error.DuplicateValue?
  {
    var p := PropagateInit(g, 0);
    if p.outcome.Failed? then Fail(p.outcome.error)
    else
      var g' := p.grid;
      match ValidCheck(g')
      case Failed(e) => Fail(e)
      case Pass =>
        assert CluesPropagatedUpTo(g', 81);
        Ok(Snap(g', 0))
  }

  /**
   * What the constructor removes: each built cell holds exactly its old
   * candidates minus the values of the clues among its peers, and every clue
   * ends with one candidate, its own when it was decided.
   */
  lemma ConstructExact(g: Grid)
    requires WellFormed(g)
    ensures Construct(g).Ok? ==>
      var h := Construct(g).value.grid;
      CluesSingleFrom(g, h, 0) && CluesKeptFrom(g, h, 0) && OnlyCluesRemovedFrom(g, h, 0)
  {
    PropagateExact(g, 0);
    var p := PropagateInit(g, 0);
    if p.outcome.Pass? {
      DecidedCluesKept(g, p.grid, 0);
    }
  }

  /** clone on values: the copied cells go through the constructor, take over the counter and are checked once more. */
  function CloneSnap(s: Snap): (r: Result<Snap>)
    requires Good(s)
    ensures r.Ok? ==> Good(r.value) && r.value.steps == s.steps && Evolves(s.grid, r.value.grid)
    ensures r.Ok? ==> ValidGrid(r.value.grid)
  {
    match Construct(s.grid)
    case Fail(e) => Fail(e)
    case Ok(c) =>
      match ValidCheck(c.grid)
      case Failed(e) => Fail(e)
      case Pass => Ok(Snap(c.grid, s.steps))
  }

  /** The second valid() of clone never fails: a copy either fails in the constructor or keeps the counter. */
  lemma CloneSnapConstruct(s: Snap)
    requires Good(s)
    ensures Construct(s.grid).Fail? ==> CloneSnap(s) == Fail(Construct(s.grid).error)
    ensures Construct(s.grid).Ok? ==> CloneSnap(s) == Ok(Snap(Construct(s.grid).value.grid, s.steps))
  {
  }

  /** Removing a value no peer holds changes nothing. */
  lemma RemoveAbsent(g: Grid, v: Val, i: int)
    requires |g| == 81 && 0 <= i < 81
    requires forall p :: 0 <= p < 81 && IsPeer(i, p) ==> v !in g[p].vals
    ensures RemoveFromPeers(g, v, i) == g
  {
    var r := RemoveFromPeers(g, v, i);
    forall j | 0 <= j < 81
      ensures r[j] == g[j]
    {
      if IsPeer(i, j) {
        assert g[j].vals - {v} == g[j].vals;
      }
    }
  }

  /** On a grid whose clues are already propagated, propagating them again changes nothing. */
  lemma {:induction false} PropagateInitStable(g: Grid, k: nat)
    requires WellFormed(g) && k <= 81 && InitPropagated(g)
    ensures PropagateInit(g, k) == Propagation(g, Pass)
    decreases 81 - k
  {
    if k < 81 {
      if g[k].rule == 'I' {
        var v := TheVal(g[k].vals).value;
        RemoveAbsent(g, v, k);
      }
      PropagateInitStable(g, k + 1);
    }
  }

  /**
   * A valid grid whose clues are propagated builds a state of its own cells, so a
   * clone of such a state holds the same cells and the same counter as its source.
   */
  lemma CloneIsCopy(s: Snap)
    requires Good(s) && ValidGrid(s.grid) && InitPropagated(s.grid)
    ensures Construct(s.grid) == Ok(Snap(s.grid, 0))
    ensures CloneSnap(s) == Ok(s)
  {
    PropagateInitStable(s.grid, 0);
  }

  /** A puzzle without clues builds a state: nothing to propagate, and every cell keeps its nine candidates. */
  lemma EmptyPuzzleBuilds(g: Grid)
    requires WellFormed(g) && forall i :: 0 <= i < 81 ==> g[i] == CellV(i, AllVals, -1, '?')
    ensures Construct(g) == Ok(Snap(g, 0))
  {
    assert InitPropagated(g);
    forall n | 0 <= n < 27
      ensures GroupDistinct(g, AllNeighborhoods[n])
    {
      assert |AllVals| == 9;
    }
    assert ValidGrid(g);
    PropagateInitStable(g, 0);
  }
}
