/**
 * The board (State.java): 81 cell objects in a fixed array and a step counter.
 * Every method is proved to do to the cells and the counter what the matching
 * function of module Grids does to a snapshot; the properties of those
 * functions are proved there.
 */
module States {
  import opened Dbc
  import opened Vals
  import opened Cells
  import opened Structure
  import opened Grids

  /** The cell objects of an array, as a set (the part of the heap a State owns). */
  ghost function CellObjects(cs: array<Cell>): set<object>
    reads cs
  {
    set i | 0 <= i < cs.Length :: cs[i]
  }

  /** Every cell of the array sits at its own index and is consistent. */
  ghost predicate CellsOk(cs: array<Cell>)
    reads cs, CellObjects(cs)
  {
    cs.Length == 81 && forall i :: 0 <= i < 81 ==> cs[i].idx == i && cs[i].Valid()
  }

  /** The values the cells of an array hold. */
  ghost function GridOf(cs: array<Cell>): (g: Grid)
    requires CellsOk(cs)
    reads cs, CellObjects(cs)
    ensures WellFormed(g)
    ensures forall i :: 0 <= i < 81 ==> g[i] == cs[i].Value()
  {
    seq(81, i requires 0 <= i < 81 && CellsOk(cs) reads cs, CellObjects(cs) => cs[i].Value())
  }

  class State {
    const cells: array<Cell>
    var steps: int
    /** The values the cells hold, kept beside them for the specification. */
    ghost var model: Grid
    ghost const Repr: set<object>

    /** The cells sit at their own indices, are consistent and hold the values of g. */
    ghost predicate Holds(g: Grid)
      reads cells, Repr
    {
      this !in Repr && cells !in Repr && cells.Length == 81 && |g| == 81 &&
      forall i :: 0 <= i < 81 ==>
        cells[i] in Repr && cells[i].idx == i && cells[i].Valid() && cells[i].Value() == g[i]
    }

    ghost predicate Valid()
      reads this, cells, Repr
    {
      Holds(model) && steps >= 0
    }

    /** The cells and the counter, as a value. */
    ghost function Snapshot(): (s: Snap)
      requires Valid()
      reads this, cells, Repr
      ensures Good(s)
    {
      Snap(model, steps)
    }

    /** The fields of a new State over the given cells, before any propagation. */
    constructor Init(cs: array<Cell>)
      requires CellsOk(cs)
      ensures Valid() && cells == cs && steps == 0
      ensures Repr == CellObjects(cs)
      ensures model == GridOf(cs)
    {
      cells := cs;
      steps := 0;
      model := GridOf(cs);
      Repr := CellObjects(cs);
      new;
      assert forall i :: 0 <= i < 81 ==> cells[i] in CellObjects(cs);
    }

    /**
     * The State constructor: refuses anything but 81 cells, then propagates the
     * clues into the given cells (which it keeps, without copying) and checks
     * validity; the counter starts at 0. A failure leaves the cells as far as the
     * propagation got.
     */
    static method Create(cs: array?<Cell>) returns (r: Result<State>)
      requires cs != null && cs.Length == 81 ==> CellsOk(cs)
      modifies if cs == null then {} else CellObjects(cs)
      ensures cs == null || cs.Length != 81 ==> r == Fail(WrongCellCount)
      ensures cs != null && cs.Length == 81 ==>
        CellsOk(cs) && GridOf(cs) == PropagateInit(old(GridOf(cs)), 0).grid
      ensures cs != null && cs.Length == 81 ==>
        (r.Ok? <==> Construct(old(GridOf(cs))).Ok?) &&
        (r.Fail? ==> r.error == Construct(old(GridOf(cs))).error)
      ensures r.Ok? ==>
        cs != null && cs.Length == 81 &&
        fresh(r.value) && r.value.cells == cs && r.value.Repr == CellObjects(cs) &&
        r.value.Valid() && r.value.Snapshot() == Construct(old(GridOf(cs))).value
    {
      if cs == null || cs.Length != 81 {
        return Fail(WrongCellCount);
      }
      r := Build(cs);
    }

    /** The constructor on 81 cells: propagate the clues, then check validity. */
    static method Build(cs: array<Cell>) returns (r: Result<State>)
      requires CellsOk(cs)
      modifies CellObjects(cs)
      ensures CellsOk(cs) && GridOf(cs) == PropagateInit(old(GridOf(cs)), 0).grid
      ensures r.Ok? <==> Construct(old(GridOf(cs))).Ok?
      ensures r.Fail? ==> r.error == Construct(old(GridOf(cs))).error
      ensures r.Ok? ==>
        fresh(r.value) && r.value.cells == cs && r.value.Repr == CellObjects(cs) &&
        r.value.Valid() && r.value.Snapshot() == Construct(old(GridOf(cs))).value
    {
      ghost var g0 := GridOf(cs);
      var st := new State.Init(cs);
      assert st.model == g0;
      var o := st.Establish();
      if o.Failed? {
        return Fail(o.error);
      }
      return Ok(st);
    }

    /** The body of the constructor after the fields are set: propagateInitialValues, then valid. */
    method Establish() returns (o: Outcome)
      requires Valid() && steps == 0
      modifies this, Repr
      ensures Valid() && steps == 0 && model == PropagateInit(old(model), 0).grid
      ensures o.Pass? <==> Construct(old(model)).Ok?
      ensures o.Failed? ==> o.error == Construct(old(model)).error
      ensures o.Pass? ==> Construct(old(model)).value == Snap(model, 0)
    {
      o := PropagateInitialValues();
      if o.Failed? {
        return;
      }
      o := CheckValid();
    }

    /** clone: fresh copies of the cells go through the constructor, take over the counter and are checked again. */
    method Clone() returns (r: Result<State>)
      requires Valid()
      ensures r.Ok? <==> CloneSnap(old(Snapshot())).Ok?
      ensures r.Fail? ==> r.error == CloneSnap(old(Snapshot())).error
      ensures r.Ok? ==> fresh(r.value) && fresh(r.value.Repr) && r.value.Valid() &&
                        r.value.Snapshot() == CloneSnap(old(Snapshot())).value
    {
      var cs := CopyCells();
      r := Rebuild(cs, steps);
    }

    /** The rest of clone once the cells are copied: construct, take over the counter, check again. */
    static method Rebuild(cs: array<Cell>, counter: int) returns (r: Result<State>)
      requires CellsOk(cs) && counter >= 0
      modifies CellObjects(cs)
      ensures r.Ok? <==> CloneSnap(Snap(old(GridOf(cs)), counter)).Ok?
      ensures r.Fail? ==> r.error == CloneSnap(Snap(old(GridOf(cs)), counter)).error
      ensures r.Ok? ==> fresh(r.value) && r.value.Repr == CellObjects(cs) && r.value.Valid() &&
                        r.value.Snapshot() == CloneSnap(Snap(old(GridOf(cs)), counter)).value
    {
      ghost var g0 := GridOf(cs);
      CloneSnapConstruct(Snap(g0, counter));
      var made := Create(cs);
      if made.Fail? {
        return made;
      }
      var clone := made.value;
      ghost var c := clone.model;
      assert Construct(g0) == Ok(Snap(c, 0));
      var o := clone.TakeOver(counter);
      // The constructor has just checked the same cells, so this second check always passes.
      assert o == Pass;
      return Ok(clone);
    }

    /** The end of clone on the new state: take over the counter, then valid(). */
    method TakeOver(counter: int) returns (o: Outcome)
      requires Valid() && counter >= 0
      modifies this
      ensures Valid() && model == old(model) && steps == counter
      ensures o == ValidCheck(model)
    {
      steps := counter;
      o := CheckValid();
    }

    /** The copy loop of clone: a new array of new cells holding the same values. */
    method CopyCells() returns (cs: array<Cell>)
      requires Valid()
      ensures fresh(cs) && fresh(CellObjects(cs)) && CellsOk(cs) && GridOf(cs) == model
    {
      var copies: seq<Cell> := [];
      for i := 0 to 81
        invariant |copies| == i
        invariant forall j :: 0 <= j < i ==> fresh(copies[j]) && copies[j].Valid() && copies[j].Value() == cells[j].Value()
      {
        var c := cells[i].Clone();
        copies := copies + [c];
      }
      cs := new Cell[81](j requires 0 <= j < 81 => copies[j]);
    }

    /**
     * setFinalCellVal for the cell at index i: the counter goes up, the cell is
     * decided (a refusal ends the call), v leaves the row, the column and the
     * block, and validity is checked.
     */
    method SetFinalCellVal(i: int, v: Val, rule: char) returns (o: Outcome)
      requires Valid() && 0 <= i < 81
      modifies this, Repr
      ensures Valid()
      ensures Snapshot() == SetFinal(old(Snapshot()), i, v, rule).after
      ensures o == SetFinal(old(Snapshot()), i, v, rule).outcome
    {
      ghost var s0 := Snapshot();
      steps := steps + 1;
      o := cells[i].SetFinalVal(v, steps, rule);
      if o.Failed? {
        SetFinalRefused(s0, i, v, rule);
        return;
      }
      ghost var c := cells[i].Value();
      assert DecideCell(s0.grid[i], v, s0.steps + 1, rule) == Ok(c);
      ghost var g1 := s0.grid[i := c];
      model := g1;
      RemoveValueFromNeighborHoods(v, i);
      ghost var g := RemoveFromPeers(g1, v, i);
      o := CheckValid();
      SetFinalAccepted(s0, i, v, rule, c);
      assert Snapshot() == Snap(g, s0.steps + 1);
    }

    /** getNumberFinalized: how many cells have their final value set. */
    method GetNumberFinalized() returns (n: int)
      requires Valid()
      ensures n == CountFinal(model)
    {
      n := 0;
      for i := 0 to 81
        invariant n == CountFinalUpTo(model, i)
      {
        if cells[i].IsFinalValueSet() {
          n := n + 1;
        }
      }
    }

    /**
     * valid: every cell must have a candidate, and in every group the
     * single-valued cells must differ; the first violation is reported.
     */
    method CheckValid() returns (o: Outcome)
      requires Valid()
      ensures o == ValidCheck(model)
    {
      ghost var g := model;
      for i := 0 to 81
        invariant forall j :: 0 <= j < i ==> g[j].vals != {}
      {
        if cells[i].possibleVals == {} {
          assert FirstEmpty(g, 0) == Some(i);
          return Failed(EmptyDomain(i));
        }
      }
      assert FirstEmpty(g, 0) == None;
      var all := GetAllNeighborhoods();
      for n := 0 to 27
        invariant GroupsScan(g, 0) == GroupsScan(g, n)
      {
        var dup := ScanGroup(all[n]);
        if dup.Some? {
          return Failed(DuplicateValue(n, dup.value));
        }
      }
      o := Pass;
    }

    /** The inner loop of valid() over one group: the first single-valued cell whose value was met before. */
    method ScanGroup(grp: seq<int>) returns (dup: Option<int>)
      requires Valid() && IsGroup(grp)
      ensures dup == GroupScan(model, grp, 0, {})
    {
      var collect: set<Val> := {};
      for k := 0 to 9
        invariant GroupScan(model, grp, 0, {}) == GroupScan(model, grp, k, collect)
      {
        var idx := grp[k];
        var cell := cells[idx];
        if cell.IsOnlyOneValLeft() {
          var finalVal := cell.GetTheFinalVal().value;
          if finalVal in collect {
            return Some(idx);
          }
          collect := collect + {finalVal};
        }
      }
      return None;
    }

    /** incrSteps: add the steps a failed copy spent. */
    method IncrSteps(attempts: int)
      requires Valid() && attempts >= 0
      modifies this
      ensures Valid() && model == old(model) && steps == old(steps) + attempts
    {
      steps := steps + attempts;
    }

    /** propagateInitialValues: the only candidate of every clue, in index order, leaves the clue's groups. */
    method PropagateInitialValues() returns (o: Outcome)
      requires Valid()
      modifies this, Repr
      ensures Valid() && steps == old(steps)
      ensures model == PropagateInit(old(model), 0).grid
      ensures o == PropagateInit(old(model), 0).outcome
    {
      ghost var g0 := model;
      for i := 0 to 81
        invariant Valid() && steps == old(steps)
        invariant PropagateInit(g0, 0) == PropagateInit(model, i)
      {
        var cell := cells[i];
        if cell.ruleId == 'I' {
          var finalVal := cell.GetTheFinalVal();
          if finalVal.Fail? {
            assert PropagateInit(model, i) == Propagation(model, Failed(finalVal.error));
            return Failed(finalVal.error);
          }
          RemoveValueFromNeighborHoods(finalVal.value, i);
        }
      }
      o := Pass;
    }

    /** isValImpossibleInNeighborhood: no cell of the group but cell mine still allows v. */
    method IsValImpossibleInNeighborhood(v: Val, mine: int, grp: seq<int>) returns (b: bool)
      requires Valid() && IsGroup(grp)
      ensures b == ImpossibleInGroup(model, v, mine, grp)
    {
      for k := 0 to |grp|
        invariant forall j :: j in grp[..k] && j != mine ==> v !in cells[j].possibleVals
      {
        var idx := grp[k];
        if idx != mine && cells[idx].IsValPossible(v) {
          return false;
        }
        assert grp[..k + 1] == grp[..k] + [idx];
      }
      assert grp[..|grp|] == grp;
      return true;
    }

    /** valImpossibleInAtLeastOneNeighborhood: v, a candidate of cell i, has no other place in its row, its column or its block. */
    method ValImpossibleInAtLeastOneNeighborhood(v: Val, i: int) returns (b: bool)
      requires Valid() && 0 <= i < 81 && v in cells[i].possibleVals
      ensures b == ImpossibleSomewhere(model, v, i)
    {
      var groups := GetNeighborHood(i).Get();
      NeighborhoodGroups(i);
      for k := 0 to 3
        invariant forall m :: 0 <= m < k ==> !ImpossibleInGroup(model, v, i, groups[m])
      {
        var found := IsValImpossibleInNeighborhood(v, i, groups[k]);
        if found {
          ImpossibleSomewhereSplit(model, v, i);
          return true;
        }
      }
      ImpossibleSomewhereSplit(model, v, i);
      return false;
    }

    /** The stream of the three groups of cell idx, each told to drop v (the forEach of setFinalCellVal and propagateInitialValues). */
    method RemoveValueFromNeighborHoods(v: Val, idx: int)
      requires Valid() && 0 <= idx < 81
      modifies this, Repr
      ensures Valid() && steps == old(steps)
      ensures model == RemoveFromPeers(old(model), v, idx)
    {
      ghost var g := model;
      var nh := GetNeighborHood(idx);
      NeighborhoodGroups(idx);
      RemoveValueFromNeighborHood(v, idx, nh.h);
      RemoveValueFromNeighborHood(v, idx, nh.v);
      RemoveValueFromNeighborHood(v, idx, nh.b);
      ThreeGroupsArePeers(g, v, idx);
    }

    /** removeValueFromNeighborHood: v leaves every cell of the group except cell mine. */
    method RemoveValueFromNeighborHood(v: Val, mine: int, grp: seq<int>)
      requires Valid() && IsGroup(grp)
      modifies this, Repr
      ensures Valid() && steps == old(steps)
      ensures model == RemoveFromGroup(old(model), v, mine, grp)
    {
      ghost var g0 := model;
      for k := 0 to 9
        invariant Valid()
        invariant steps == old(steps)
        invariant model == RemoveFromGroup(g0, v, mine, grp[..k])
      {
        var idx := grp[k];
        RemoveFromGroupStep(g0, v, mine, grp, k);
        if idx != mine {
          RemoveFromCell(v, idx);
        }
      }
      assert grp[..9] == grp;
    }

    /** One step of removeValueFromNeighborHood: v leaves the candidates of cell idx, and only of it. */
    method RemoveFromCell(v: Val, idx: int)
      requires Valid() && 0 <= idx < 81
      modifies this, cells[idx]
      ensures Valid() && steps == old(steps)
      ensures model == old(model)[idx := old(model)[idx].(vals := old(model)[idx].vals - {v})]
    {
      cells[idx].RemoveFromSetOfPossibleValues(v);
      model := model[idx := cells[idx].Value()];
      assert forall j :: 0 <= j < 81 && j != idx ==> cells[j].Value() == old(cells[j].Value());
    }
  }
}
