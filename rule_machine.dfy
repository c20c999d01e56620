/**
 * RuleMachine.java: the three rules, as methods that change a State in place.
 * Each method is proved to leave the state, and to report the outcome, exactly
 * as the matching function of module Rules says; what the rules achieve is
 * proved there, about those functions. A DBCException thrown inside a rule is
 * a Failed outcome that every caller passes on at once, as the exception would.
 */
module RuleMachine {
  import opened Dbc
  import opened Vals
  import opened Cells
  import opened Grids
  import opened Rules
  import opened States

  // ---------------------------------------------------------------------------
  // Rule 'O'

  /**
   * ruleOneValLeftSingleStep: one ascending pass over the cells; each cell that
   * is undecided with one candidate left when the pass reaches it is decided
   * with that candidate and tag 'O'.
   */
  method RuleOneValLeftSingleStep(state: State) returns (o: Outcome)
    requires state.Valid()
    modifies state, state.Repr
    ensures state.Valid()
    ensures state.Snapshot() == OneValPass(old(state.Snapshot()), 0).after
    ensures o == OneValPass(old(state.Snapshot()), 0).outcome
  {
    ghost var s0 := state.Snapshot();
    o := Pass;
    var i := 0;
    while i < 81
      invariant 0 <= i <= 81 && state.Valid() && o == Pass
      invariant OneValPass(s0, 0) == OneValPass(state.Snapshot(), i)
    {
      ghost var s := state.Snapshot();
      var cell := state.cells[i];
      PendingQueries(state, i);
      if !cell.IsFinalValueSet() && cell.IsOnlyOneValLeft() {
        var val := cell.GetTheFinalVal().value;
        OneValPassDecide(s, i, val);
        o := state.SetFinalCellVal(i, val, 'O');
        if o.Failed? {
          return;
        }
      } else {
        OneValPassSkip(s, i);
      }
      i := i + 1;
    }
  }

  /** What the queries of the pass say about the cell in the model. */
  lemma PendingQueries(state: State, i: int)
    requires state.Valid() && 0 <= i < 81
    ensures Pending(state.model[i]) <==> !state.cells[i].IsFinalValueSet() && state.cells[i].IsOnlyOneValLeft()
    ensures state.cells[i].GetTheFinalVal() == TheVal(state.model[i].vals)
  {
  }

  /**
   * ruleOneValLeft: a pass, repeated while it decides something and cells are
   * left undecided.
   */
  method RuleOneValLeft(state: State) returns (o: Outcome)
    requires state.Valid()
    modifies state, state.Repr
    ensures state.Valid()
    ensures state.Snapshot() == OneValLeft(old(state.Snapshot())).after
    ensures o == OneValLeft(old(state.Snapshot())).outcome
    decreases 81 - CountFinal(state.model)
  {
    ghost var s0 := state.Snapshot();
    var before := state.GetNumberFinalized();
    o := RuleOneValLeftSingleStep(state);
    CountFinalMonotone(s0.grid, state.model, 81);
    if o.Failed? {
      return;
    }
    var after := state.GetNumberFinalized();
    if before != after && after < 81 {
      o := RuleOneValLeft(state);
    }
  }

  // ---------------------------------------------------------------------------
  // Rule 'E'

  /**
   * The inner loop of ruleExcludedVal: the candidates of undecided cell i in
   * declaration order, up to the first one that has no other place in one of
   * the cell's groups.
   */
  method FirstExcludedVal(state: State, i: int) returns (r: Option<Val>)
    requires state.Valid() && 0 <= i < 81
    ensures r == FirstExcluded(state.model, i, 0)
  {
    var j := 0;
    while j < 9
      invariant 0 <= j <= 9
      invariant FirstExcluded(state.model, i, 0) == FirstExcluded(state.model, i, j)
    {
      ValueAt(j);
      var val := Values[j];
      if state.cells[i].IsValPossible(val) {
        var success := state.ValImpossibleInAtLeastOneNeighborhood(val, i);
        if success {
          return Some(val);
        }
      }
      j := j + 1;
    }
    return None;
  }

  /** The pass of ruleExcludedVal over all cells; decided tells whether it decided a cell. */
  method RuleExcludedValPass(state: State) returns (o: Outcome, decided: bool)
    requires state.Valid()
    modifies state, state.Repr
    ensures state.Valid()
    ensures Sweep(Step(state.Snapshot(), o), decided) == ExclPass(old(state.Snapshot()), 0, false)
  {
    ghost var s0 := state.Snapshot();
    o := Pass;
    decided := false;
    var i := 0;
    while i < 81
      invariant 0 <= i <= 81 && state.Valid() && o == Pass
      invariant ExclPass(s0, 0, false) == ExclPass(state.Snapshot(), i, decided)
    {
      ghost var s := state.Snapshot();
      var cell := state.cells[i];
      if !cell.IsFinalValueSet() {
        var found := FirstExcludedVal(state, i);
        if found.Some? {
          ExclPassDecide(s, i, decided, found.value);
          decided := true;
          o := state.SetFinalCellVal(i, found.value, 'E');
          if o.Failed? {
            return;
          }
        } else {
          ExclPassSkip(s, i, decided);
        }
      } else {
        ExclPassSkip(s, i, decided);
      }
      i := i + 1;
    }
  }

  /**
   * ruleExcludedVal: a pass, then valid(); if the pass decided a cell and cells
   * are left undecided, ruleOneValLeft and then the rule itself run again.
   */
  method RuleExcludedVal(state: State) returns (o: Outcome)
    requires state.Valid()
    modifies state, state.Repr
    ensures state.Valid()
    ensures state.Snapshot() == ExcludedVal(old(state.Snapshot())).after
    ensures o == ExcludedVal(old(state.Snapshot())).outcome
    decreases 81 - CountFinal(state.model)
  {
    ghost var s0 := state.Snapshot();
    var atLeastOneSuccess;
    o, atLeastOneSuccess := RuleExcludedValPass(state);
    if o.Failed? {
      return;
    }
    ghost var t := state.Snapshot();
    o := state.CheckValid();
    if o.Failed? {
      return;
    }
    var n := state.GetNumberFinalized();
    if atLeastOneSuccess && n < 81 {
      o := RuleOneValLeft(state);
      CountFinalMonotone(t.grid, state.model, 81);
      if o.Failed? {
        return;
      }
      o := RuleExcludedVal(state);
    }
  }

  // ---------------------------------------------------------------------------
  // Rule 'B'

  /**
   * pickCell: the last cell that is neither visited nor decided; when that one
   * has more than two candidates, a scan from the start replaces it by each
   * eligible cell with strictly fewer, stopping at the first with at most two.
   * The cell picked is marked visited.
   */
  method PickCell(state: State, visited: array<bool>) returns (r: Option<int>)
    requires state.Valid() && visited.Length == 81
    modifies visited
    ensures r == Pick(state.model, old(visited[..]))
    ensures r.None? ==> visited[..] == old(visited[..])
    ensures r.Some? ==> visited[..] == old(visited[..])[r.value := true]
  {
    var minValsCell := LastEligibleCell(state, visited);
    if minValsCell < 0 {
      return None;
    }
    if |state.cells[minValsCell].possibleVals| > 2 {
      minValsCell := FewestCandidates(state, visited, minValsCell);
    }
    visited[minValsCell] := true;
    return Some(minValsCell);
  }

  /** The first loop of pickCell: the last eligible cell, or -1 when there is none. */
  method LastEligibleCell(state: State, visited: array<bool>) returns (c: int)
    requires state.Valid() && visited.Length == 81
    ensures -1 <= c < 81
    ensures LastEligible(state.model, visited[..], 81) == if c < 0 then None else Some(c)
  {
    ghost var g := state.model;
    ghost var vis := visited[..];
    c := -1;
    var i := 0;
    while i < visited.Length
      invariant 0 <= i <= 81 && -1 <= c < i
      invariant LastEligible(g, vis, i) == if c < 0 then None else Some(c)
    {
      if !visited[i] {
        if !state.cells[i].IsFinalValueSet() {
          c := i;
        }
      }
      i := i + 1;
    }
  }

  /** The second loop of pickCell, started from the eligible cell last. */
  method FewestCandidates(state: State, visited: array<bool>, last: int) returns (c: int)
    requires state.Valid() && visited.Length == 81 && 0 <= last < 81 && Eligible(state.model, visited[..], last)
    ensures c == ScanMin(state.model, visited[..], 0, last)
  {
    ghost var g := state.model;
    ghost var vis := visited[..];
    c := last;
    var minValsSize := |state.cells[c].possibleVals|;
    var i := 0;
    while i < 81
      invariant 0 <= i <= 81 && 0 <= c < 81 && Eligible(g, vis, c)
      invariant minValsSize == |g[c].vals|
      invariant ScanMin(g, vis, 0, last) == ScanMin(g, vis, i, c)
    {
      if !visited[i] {
        if !state.cells[i].IsFinalValueSet() {
          var size := |state.cells[i].possibleVals|;
          if size < minValsSize {
            minValsSize := size;
            c := i;
            if minValsSize <= 2 {
              break;
            }
          }
        }
      }
      i := i + 1;
    }
  }

  /**
   * ruleBacktracker: pick a cell; try its candidates in declaration order, each
   * on a fresh clone. The first trial that succeeds is the result; a failed trial
   * adds the clone's whole counter to this state's counter. The while loop of the
   * source runs its body at most once, since the body always returns or throws.
   */
  method RuleBacktracker(state: State, visited: array<bool>) returns (r: Result<State>)
    requires state.Valid() && visited.Length == 81 && visited !in state.Repr
    modifies state, visited
    ensures state.Valid()
    ensures state.Snapshot() == Backtrack(old(state.Snapshot()), old(visited[..])).self
    ensures visited[..] == Backtrack(old(state.Snapshot()), old(visited[..])).visited
    ensures r.Ok? <==> Backtrack(old(state.Snapshot()), old(visited[..])).result.Ok?
    ensures r.Ok? ==>
      fresh(r.value) && fresh(r.value.Repr) && r.value.Valid() && r.value.Snapshot() == Backtrack(old(state.Snapshot()), old(visited[..])).result.value
    ensures r.Fail? ==> r.error == Backtrack(old(state.Snapshot()), old(visited[..])).result.error
    decreases Unvisited(visited[..]), 0
  {
    ghost var s0 := state.Snapshot();
    ghost var vis0 := visited[..];
    var picked := PickCell(state, visited);
    if picked.None? {
      assert Backtrack(s0, vis0) == Trial(s0, Fail(NoSolutionAtAll), vis0);
      return Fail(NoSolutionAtAll);
    }
    var idx := picked.value;
    UnvisitedShrinks(vis0, visited[..]);
    BacktrackPicked(s0, vis0, idx);
    r := TryCandidates(state, idx, visited);
  }

  /**
   * The for loop of ruleBacktracker over the candidates of the picked cell idx,
   * in declaration order: the first trial that succeeds is the result; a failed
   * trial adds the clone's whole counter to this state's counter; when all fail,
   * the cell has no solution.
   */
  method TryCandidates(state: State, idx: int, visited: array<bool>) returns (r: Result<State>)
    requires state.Valid() && 0 <= idx < 81 && visited.Length == 81 && visited !in state.Repr
    modifies state, visited
    ensures state.Valid()
    ensures state.Snapshot() == TryVals(old(state.Snapshot()), idx, 0, old(visited[..])).self
    ensures visited[..] == TryVals(old(state.Snapshot()), idx, 0, old(visited[..])).visited
    ensures r.Ok? <==> TryVals(old(state.Snapshot()), idx, 0, old(visited[..])).result.Ok?
    ensures r.Ok? ==>
      fresh(r.value) && fresh(r.value.Repr) && r.value.Valid() && r.value.Snapshot() == TryVals(old(state.Snapshot()), idx, 0, old(visited[..])).result.value
    ensures r.Fail? ==> r.error == TryVals(old(state.Snapshot()), idx, 0, old(visited[..])).result.error
    decreases Unvisited(visited[..]), 5
  {
    ghost var b := TryVals(state.Snapshot(), idx, 0, visited[..]);
    ghost var u0 := Unvisited(visited[..]);
    var j := 0;
    while j < 9
      invariant 0 <= j <= 9 && state.Valid() && state.model == old(state.model)
      invariant Unvisited(visited[..]) <= u0
      invariant b == TryVals(state.Snapshot(), idx, j, visited[..])
    {
      ghost var s := state.Snapshot();
      var val := Values[j];
      assert state.cells[idx].Value() == s.grid[idx];
      if state.cells[idx].IsValPossible(val) {
        var done;
        r, done := TryCandidate(state, idx, j, visited);
        if done {
          return;
        }
      } else {
        TryValsSkip(s, idx, j, visited[..]);
      }
      j := j + 1;
    }
    assert b == Trial(state.Snapshot(), Fail(NoSolutionForCell(idx)), visited[..]);
    return Fail(NoSolutionForCell(idx));
  }

  /**
   * One pass of the for loop of ruleBacktracker, for the candidate at position j
   * of the declaration order: clone the state, run the try block on the clone and,
   * when the trial fails, add the clone's counter to this state's counter. A
   * failing clone is not caught. done tells whether the loop ends here, with r.
   */
  method TryCandidate(state: State, idx: int, j: int, visited: array<bool>) returns (r: Result<State>, done: bool)
    requires state.Valid() && 0 <= idx < 81 && 0 <= j < 9 && visited.Length == 81 && visited !in state.Repr
    requires Values[j] in state.model[idx].vals
    modifies state, visited
    ensures state.Valid() && state.model == old(state.model)
    ensures Unvisited(visited[..]) <= Unvisited(old(visited[..]))
    ensures !done ==>
      TryVals(old(state.Snapshot()), idx, j, old(visited[..])) == TryVals(state.Snapshot(), idx, j + 1, visited[..])
    ensures done ==>
      var t := TryVals(old(state.Snapshot()), idx, j, old(visited[..]));
      state.Snapshot() == t.self && visited[..] == t.visited && (r.Ok? <==> t.result.Ok?) &&
      (r.Fail? ==> r.error == t.result.error) &&
      (r.Ok? ==> fresh(r.value) && fresh(r.value.Repr) && r.value.Valid() && r.value.Snapshot() == t.result.value)
    decreases Unvisited(visited[..]), 4
  {
    ghost var s := state.Snapshot();
    ghost var vis := visited[..];
    var made := state.Clone();
    if made.Fail? {
      TryValsCloneFails(s, idx, j, vis);
      return Fail(made.error), true;
    }
    var stateForTrial := made.value;
    ghost var c := stateForTrial.Snapshot();
    TryValsTries(s, idx, j, vis, c);
    r, done := TrialOnClone(state, stateForTrial, idx, j, visited, Attempt(c, idx, Values[j], vis));
  }

  /**
   * The try block on the clone trial of state, for the candidate at position j,
   * and the catch block that charges the clone's counter when the trial fails;
   * t is the trial as a value.
   */
  method TrialOnClone(state: State, trial: State, idx: int, j: int, visited: array<bool>, ghost t: Trial)
    returns (r: Result<State>, done: bool)
    requires state.Valid() && trial.Valid() && 0 <= idx < 81 && 0 <= j < 9 && visited.Length == 81
    requires visited !in state.Repr && visited !in trial.Repr
    requires state != trial && state !in trial.Repr && state.Repr !! trial.Repr
    requires state.cells != trial.cells && state.cells !in trial.Repr && trial.cells !in state.Repr
    requires t == Attempt(trial.Snapshot(), idx, Values[j], visited[..])
    modifies state, trial, trial.Repr, visited
    ensures state.Valid() && state.model == old(state.model)
    ensures Unvisited(visited[..]) <= Unvisited(old(visited[..]))
    ensures !done ==>
      AfterTrial(old(state.Snapshot()), idx, j, old(visited[..]), t) == TryVals(state.Snapshot(), idx, j + 1, visited[..])
    ensures done ==>
      var a := AfterTrial(old(state.Snapshot()), idx, j, old(visited[..]), t);
      state.Snapshot() == a.self && visited[..] == a.visited && (r.Ok? <==> a.result.Ok?) &&
      (r.Fail? ==> r.error == a.result.error) &&
      (r.Ok? ==> (r.value == trial || (fresh(r.value) && fresh(r.value.Repr))) && r.value.Valid() && r.value.Snapshot() == a.result.value)
    decreases Unvisited(visited[..]), 3
  {
    ghost var s := state.Snapshot();
    ghost var vis := visited[..];
    r := RunTrial(trial, idx, Values[j], visited);
    assert state.model == s.grid && state.steps == s.steps && state.Valid();
    if r.Ok? {
      return r, true;
    }
    AfterTrialCaught(s, idx, j, vis, t);
    state.IncrSteps(trial.steps);
    done := false;
  }

  /**
   * The try block of ruleBacktracker on the clone: decide the candidate with tag
   * 'B', run rules 'O' and 'E', check validity, and backtrack further while cells
   * are undecided. The clone ends where the trial left it; the result is the
   * clone itself when it is solved, or the state a nested backtracker returned.
   */
  method RunTrial(trial: State, i: int, v: Val, visited: array<bool>) returns (r: Result<State>)
    requires trial.Valid() && 0 <= i < 81 && visited.Length == 81 && visited !in trial.Repr
    modifies trial, trial.Repr, visited
    ensures trial.Valid()
    ensures trial.Snapshot() == Attempt(old(trial.Snapshot()), i, v, old(visited[..])).self
    ensures visited[..] == Attempt(old(trial.Snapshot()), i, v, old(visited[..])).visited
    ensures r.Ok? <==> Attempt(old(trial.Snapshot()), i, v, old(visited[..])).result.Ok?
    ensures r.Ok? ==>
      (r.value == trial || (fresh(r.value) && fresh(r.value.Repr))) && r.value.Valid() && r.value.Snapshot() == Attempt(old(trial.Snapshot()), i, v, old(visited[..])).result.value
    ensures r.Fail? ==> r.error == Attempt(old(trial.Snapshot()), i, v, old(visited[..])).result.error
    decreases Unvisited(visited[..]), 2
  {
    ghost var c := trial.Snapshot();
    ghost var vis := visited[..];
    var o := trial.SetFinalCellVal(i, v, 'B');
    ghost var t1 := trial.Snapshot();
    if o.Failed? {
      assert Attempt(c, i, v, vis) == Trial(t1, Fail(o.error), vis);
      return Fail(o.error);
    }
    o := RuleOneValLeft(trial);
    ghost var t2 := trial.Snapshot();
    if o.Failed? {
      assert Attempt(c, i, v, vis) == Trial(t2, Fail(o.error), vis);
      return Fail(o.error);
    }
    o := RuleExcludedVal(trial);
    ghost var t3 := trial.Snapshot();
    if o.Failed? {
      assert Attempt(c, i, v, vis) == Trial(t3, Fail(o.error), vis);
      return Fail(o.error);
    }
    assert Attempt(c, i, v, vis) == Finish(t3, vis);
    r := FinishTrial(trial, visited);
  }

  /**
   * The end of the try block, after rule 'E': check validity, then backtrack
   * further while cells are undecided, or return the solved clone.
   */
  method FinishTrial(trial: State, visited: array<bool>) returns (r: Result<State>)
    requires trial.Valid() && visited.Length == 81 && visited !in trial.Repr
    modifies trial, visited
    ensures trial.Valid()
    ensures trial.Snapshot() == Finish(old(trial.Snapshot()), old(visited[..])).self
    ensures visited[..] == Finish(old(trial.Snapshot()), old(visited[..])).visited
    ensures r.Ok? <==> Finish(old(trial.Snapshot()), old(visited[..])).result.Ok?
    ensures r.Ok? ==>
      (r.value == trial || (fresh(r.value) && fresh(r.value.Repr))) && r.value.Valid() && r.value.Snapshot() == Finish(old(trial.Snapshot()), old(visited[..])).result.value
    ensures r.Fail? ==> r.error == Finish(old(trial.Snapshot()), old(visited[..])).result.error
    decreases Unvisited(visited[..]), 1
  {
    var o := trial.CheckValid();
    if o.Failed? {
      return Fail(o.error);
    }
    var n := trial.GetNumberFinalized();
    if n < 81 {
      r := RuleBacktracker(trial, visited);
    } else {
      r := Ok(trial);
    }
  }

  // ---------------------------------------------------------------------------
  // The whole solver

  /**
   * RunSudoku.run once the state is built: one pass of rule 'O', rule 'E' when
   * fewer than 81 cells are decided, the backtracker with a new array of
   * visited marks when still fewer are, and valid() on the state the rules
   * produced, which is returned.
   */
  method Run(state: State) returns (r: Result<State>)
    requires state.Valid()
    modifies state, state.Repr
    ensures r.Ok? <==> Pipeline(old(state.Snapshot())).Ok?
    ensures r.Fail? ==> r.error == Pipeline(old(state.Snapshot())).error
    ensures r.Ok? ==>
      (r.value == state || (fresh(r.value) && fresh(r.value.Repr))) && r.value.Valid() && r.value.Snapshot() == Pipeline(old(state.Snapshot())).value
  {
    ghost var s0 := state.Snapshot();
    var o := RuleOneValLeftSingleStep(state);
    ghost var u := state.Snapshot();
    assert Pipeline(s0) ==
      if o.Failed? then Fail(o.error) else if CountFinal(u.grid) >= 81 then Verified(u) else PipelineRest(u);
    if o.Failed? {
      return Fail(o.error);
    }
    var n := state.GetNumberFinalized();
    if n < 81 {
      r := RunRest(state);
    } else {
      r := FinalValid(state);
    }
  }

  /** The rest of a run, after the pass of rule 'O' left fewer than 81 cells decided. */
  method RunRest(state: State) returns (r: Result<State>)
    requires state.Valid()
    modifies state, state.Repr
    ensures r.Ok? <==> PipelineRest(old(state.Snapshot())).Ok?
    ensures r.Fail? ==> r.error == PipelineRest(old(state.Snapshot())).error
    ensures r.Ok? ==>
      (r.value == state || (fresh(r.value) && fresh(r.value.Repr))) && r.value.Valid() && r.value.Snapshot() == PipelineRest(old(state.Snapshot())).value
  {
    ghost var s0 := state.Snapshot();
    var o := RuleExcludedVal(state);
    ghost var u := state.Snapshot();
    assert PipelineRest(s0) ==
      if o.Failed? then Fail(o.error) else if CountFinal(u.grid) >= 81 then Verified(u) else Search(u);
    if o.Failed? {
      return Fail(o.error);
    }
    var n := state.GetNumberFinalized();
    if n < 81 {
      r := RunSearch(state);
    } else {
      r := FinalValid(state);
    }
  }

  /** The backtracker on a new array with no cell visited, then valid() on the state it returns. */
  method RunSearch(state: State) returns (r: Result<State>)
    requires state.Valid()
    modifies state
    ensures r.Ok? <==> Search(old(state.Snapshot())).Ok?
    ensures r.Fail? ==> r.error == Search(old(state.Snapshot())).error
    ensures r.Ok? ==> fresh(r.value) && fresh(r.value.Repr) && r.value.Valid() && r.value.Snapshot() == Search(old(state.Snapshot())).value
  {
    var visited := new bool[81](_ => false);
    assert visited[..] == seq(81, _ => false);
    var b := RuleBacktracker(state, visited);
    if b.Fail? {
      return Fail(b.error);
    }
    r := FinalValid(b.value);
  }

  /** The valid() that ends run: the state is handed back when it passes, and its violation is the failure otherwise. */
  method FinalValid(state: State) returns (r: Result<State>)
    requires state.Valid()
    ensures r.Ok? <==> ValidGrid(state.model)
    ensures r.Fail? ==> r.error == Verified(state.Snapshot()).error
    ensures r.Ok? ==> r.value == state && Verified(state.Snapshot()) == Ok(state.Snapshot())
  {
    var o := state.CheckValid();
    if o.Failed? {
      return Fail(o.error);
    }
    r := Ok(state);
  }
}
