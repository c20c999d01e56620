/**
 * What the three rules of RuleMachine.java do, as functions on snapshots.
 * The rule methods of module RuleMachine are proved to compute exactly these;
 * the properties of the rules are proved here, once, about the functions.
 */
module Rules {
  import opened Dbc
  import opened Vals
  import opened Cells
  import opened Structure
  import opened Grids

  /** An undecided cell with one candidate left: the cells the 'O' rule decides. */
  predicate Pending(c: CellV)
  {
    c.step < 0 && |c.vals| == 1
  }

  /** Cells that were decided keep their step and their rule tag. */
  predicate DecidedKept(g: Grid, g': Grid)
    requires |g| == 81 && |g'| == 81
  {
    forall j :: 0 <= j < 81 && g[j].step >= 0 ==> g'[j].step == g[j].step && g'[j].rule == g[j].rule
  }

  /** Cells decided between g and g' carry one of the given rule tags. */
  predicate TaggedBy(g: Grid, g': Grid, tags: set<char>)
    requires |g| == 81 && |g'| == 81
  {
    forall j :: 0 <= j < 81 && g[j].step < 0 && g'[j].step >= 0 ==> g'[j].rule in tags
  }

  /**
   * How a rule changes a state: the state progresses, decided cells keep their
   * step and tag, and the cells the rule decides carry one of its tags.
   */
  predicate Follows(s: Snap, t: Snap, tags: set<char>)
    requires Good(s) && Good(t)
  {
    Progress(s, t) && DecidedKept(s.grid, t.grid) && TaggedBy(s.grid, t.grid, tags)
  }

  lemma FollowsTrans(a: Snap, b: Snap, c: Snap, tags: set<char>, tags': set<char>)
    requires Good(a) && Good(b) && Good(c) && Follows(a, b, tags) && Follows(b, c, tags')
    ensures Follows(a, c, tags + tags')
  {
  }

  lemma FollowsWeaken(s: Snap, t: Snap, tags: set<char>, tags': set<char>)
    requires Good(s) && Good(t) && Follows(s, t, tags) && tags <= tags'
    ensures Follows(s, t, tags')
  {
  }

  /** Deciding an undecided cell follows with the rule's tag. */
  lemma SetFinalFollows(s: Snap, i: int, v: Val, rule: char)
    requires Good(s) && 0 <= i < 81 && s.grid[i].step < 0
    ensures Follows(s, SetFinal(s, i, v, rule).after, {rule})
  {
  }

  /**
   * When the outcome passed, a decided cell is left exactly as it was: its step
   * and tag are kept, and its one candidate cannot have been removed without
   * emptying the cell.
   */
  lemma DecidedCellsKept(g: Grid, g': Grid)
    requires WellFormed(g) && WellFormed(g') && Evolves(g, g') && NoEmptyDomain(g') && DecidedKept(g, g')
    ensures forall j :: 0 <= j < 81 && g[j].step >= 0 ==> g'[j] == g[j]
  {
    forall j | 0 <= j < 81 && g[j].step >= 0
      ensures g'[j] == g[j]
    {
      var w :| w in g'[j].vals;
      SingletonOf(g[j].vals, w);
      SingletonOf(g'[j].vals, w);
    }
  }

  // ---------------------------------------------------------------------------
  // Rule 'O' (ruleOneValLeftSingleStep, ruleOneValLeft)

  /**
   * One ascending pass from cell k on: each cell that is pending when the pass
   * reaches it is decided with its only candidate; the first failure ends the pass.
   * Every step counted decides one more cell.
   */
  function OneValPass(s: Snap, k: nat): (r: Step)
    requires Good(s) && k <= 81
    ensures Good(r.after) && Follows(s, r.after, {'O'})
    ensures r.after.steps - s.steps <= CountFinal(r.after.grid) - CountFinal(s.grid)
    ensures r.after.steps == s.steps ==> r == Step(s, Pass)
    ensures r.outcome.Pass? && r.after.steps > s.steps ==> ValidGrid(r.after.grid)
    decreases 81 - k
  {
    if k == 81 then Step(s, Pass)
    else
      var c := s.grid[k];
      if Pending(c) then
        var t := SetFinal(s, k, TheVal(c.vals).value, 'O');
        CountFinalGrows(s.grid, t.after.grid, k);
        SetFinalFollows(s, k, TheVal(c.vals).value, 'O');
        if t.outcome.Failed? then t
        else
          var r := OneValPass(t.after, k + 1);
          FollowsTrans(s, t.after, r.after, {'O'}, {'O'});
          r
      else OneValPass(s, k + 1)
  }

  /** One cell of the 'O' pass: a cell that is not pending is passed over. */
  lemma OneValPassSkip(s: Snap, k: nat)
    requires Good(s) && k < 81 && !Pending(s.grid[k])
    ensures OneValPass(s, k) == OneValPass(s, k + 1)
  {
  }

  /** One cell of the 'O' pass: a pending cell is decided, and the pass goes on unless that failed. */
  lemma OneValPassDecide(s: Snap, k: nat, v: Val)
    requires Good(s) && k < 81 && Pending(s.grid[k]) && TheVal(s.grid[k].vals) == Ok(v)
    ensures var t := SetFinal(s, k, v, 'O');
      OneValPass(s, k) == if t.outcome.Failed? then t else OneValPass(t.after, k + 1)
  {
  }

  /** A pass that did not add to the counter met no pending cell. */
  lemma {:induction false} OneValPassQuiet(s: Snap, k: nat)
    requires Good(s) && k <= 81 && OneValPass(s, k).after.steps == s.steps
    ensures forall j :: k <= j < 81 ==> !Pending(s.grid[j])
    decreases 81 - k
  {
    if k < 81 {
      QuietPendingCell(s, k);
      OneValPassQuiet(s, k + 1);
    }
  }

  lemma QuietPendingCell(s: Snap, k: nat)
    requires Good(s) && k < 81 && OneValPass(s, k).after.steps == s.steps
    ensures !Pending(s.grid[k]) && OneValPass(s, k + 1) == OneValPass(s, k)
  {
  }

  /**
   * ruleOneValLeft: passes are repeated while a pass decides something and
   * cells are left undecided. When it passes, no pending cell is left.
   */
  function OneValLeft(s: Snap): (r: Step)
    requires Good(s)
    ensures Good(r.after) && Follows(s, r.after, {'O'})
    ensures r.outcome.Pass? ==> forall j :: 0 <= j < 81 ==> !Pending(r.after.grid[j])
    ensures r.outcome.Pass? && r.after.steps > s.steps ==> ValidGrid(r.after.grid)
    decreases 81 - CountFinal(s.grid)
  {
    var t := OneValPass(s, 0);
    CountFinalMonotone(s.grid, t.after.grid, 81);
    if t.outcome.Failed? then t
    else if CountFinal(s.grid) != CountFinal(t.after.grid) && CountFinal(t.after.grid) < 81 then
      var r := OneValLeft(t.after);
      FollowsTrans(s, t.after, r.after, {'O'}, {'O'});
      r
    else if CountFinal(s.grid) == CountFinal(t.after.grid) then
      OneValPassQuiet(s, 0);
      t
    else
      CountFinalAll(t.after.grid, 81);
      t
  }

  /** A pass over cells none of which is pending does nothing. */
  lemma {:induction false} QuietPass(s: Snap, k: nat)
    requires Good(s) && k <= 81 && forall j :: k <= j < 81 ==> !Pending(s.grid[j])
    ensures OneValPass(s, k) == Step(s, Pass)
    decreases 81 - k
  {
    if k < 81 {
      QuietPass(s, k + 1);
    }
  }

  /** ruleOneValLeft reaches a fixpoint: applied again to the state u it passed with, it changes nothing. */
  lemma OneValLeftIdempotent(s: Snap, u: Snap)
    requires Good(s) && OneValLeft(s) == Step(u, Pass)
    ensures OneValLeft(u) == Step(u, Pass)
  {
    QuietFixpoint(u);
  }

  /** On a state without a pending cell, ruleOneValLeft does nothing. */
  lemma QuietFixpoint(u: Snap)
    requires Good(u) && forall j :: 0 <= j < 81 ==> !Pending(u.grid[j])
    ensures OneValLeft(u) == Step(u, Pass)
  {
    QuietPass(u, 0);
  }

  // ---------------------------------------------------------------------------
  // Rule 'E' (ruleExcludedVal)

  /** v is a candidate of cell i that has no other place in one of the cell's groups. */
  predicate Excluded(g: Grid, i: int, v: Val)
    requires 0 <= i < 81 && |g| == 81
  {
    v in g[i].vals && ImpossibleSomewhere(g, v, i)
  }

  /**
   * The first candidate of cell i, from the constant at position j of the
   * declaration order on, that has no other place in one of the cell's groups.
   */
  function FirstExcluded(g: Grid, i: int, j: nat): (r: Option<Val>)
    requires 0 <= i < 81 && |g| == 81 && j <= 9
    ensures r.Some? ==> Excluded(g, i, r.value) && j < r.value.N()
    ensures r.Some? ==> forall w: Val :: Excluded(g, i, w) && j < w.N() ==> r.value.N() <= w.N()
    ensures r.None? <==> forall w: Val :: j < w.N() ==> !Excluded(g, i, w)
    decreases 9 - j
  {
    if j == 9 then
      ValueAt(0);
      None
    else
      ValueAt(j);
      if Excluded(g, i, Values[j]) then Some(Values[j])
      else FirstExcluded(g, i, j + 1)
  }

  /** The result of one pass of rule 'E': where it left the state, and whether it decided a cell. */
  datatype Sweep = Sweep(step: Step, decided: bool)

  /**
   * The pass of ruleExcludedVal from cell k on: each undecided cell gets its first
   * excluded candidate, at most one decision per cell; the first failure ends the pass.
   * Every step counted decides one more cell.
   */
  function ExclPass(s: Snap, k: nat, decided: bool): (r: Sweep)
    requires Good(s) && k <= 81
    ensures Good(r.step.after) && Follows(s, r.step.after, {'E'})
    ensures r.decided == (decided || r.step.after.steps > s.steps)
    ensures r.step.after.steps - s.steps <= CountFinal(r.step.after.grid) - CountFinal(s.grid)
    ensures r.step.after.steps == s.steps ==> r.step == Step(s, Pass)
    decreases 81 - k
  {
    if k == 81 then Sweep(Step(s, Pass), decided)
    else if s.grid[k].step < 0 then
      match FirstExcluded(s.grid, k, 0)
      case None => ExclPass(s, k + 1, decided)
      case Some(v) =>
        var t := SetFinal(s, k, v, 'E');
        CountFinalGrows(s.grid, t.after.grid, k);
        SetFinalFollows(s, k, v, 'E');
        if t.outcome.Failed? then Sweep(t, true)
        else
          var r := ExclPass(t.after, k + 1, true);
          FollowsTrans(s, t.after, r.step.after, {'E'}, {'E'});
          r
    else ExclPass(s, k + 1, decided)
  }

  /** One cell of the 'E' pass: a decided cell, or one without an excluded candidate, is passed over. */
  lemma ExclPassSkip(s: Snap, k: nat, decided: bool)
    requires Good(s) && k < 81 && (s.grid[k].step >= 0 || FirstExcluded(s.grid, k, 0).None?)
    ensures ExclPass(s, k, decided) == ExclPass(s, k + 1, decided)
  {
  }

  /** One cell of the 'E' pass: an undecided cell gets its first excluded candidate, and the pass goes on unless that failed. */
  lemma ExclPassDecide(s: Snap, k: nat, decided: bool, v: Val)
    requires Good(s) && k < 81 && s.grid[k].step < 0 && FirstExcluded(s.grid, k, 0) == Some(v)
    ensures var t := SetFinal(s, k, v, 'E');
      ExclPass(s, k, decided) == if t.outcome.Failed? then Sweep(t, true) else ExclPass(t.after, k + 1, true)
  {
  }

  /** A pass that did not add to the counter found no excluded candidate in any undecided cell. */
  lemma {:induction false} ExclPassQuiet(s: Snap, k: nat, decided: bool)
    requires Good(s) && k <= 81 && ExclPass(s, k, decided).step.after.steps == s.steps
    ensures forall j, w: Val :: k <= j < 81 && s.grid[j].step < 0 ==> !Excluded(s.grid, j, w)
    decreases 81 - k
  {
    if k < 81 {
      QuietExclCell(s, k, decided);
      ExclPassQuiet(s, k + 1, decided);
    }
  }

  lemma QuietExclCell(s: Snap, k: nat, decided: bool)
    requires Good(s) && k < 81 && ExclPass(s, k, decided).step.after.steps == s.steps
    ensures s.grid[k].step < 0 ==> FirstExcluded(s.grid, k, 0).None?
    ensures ExclPass(s, k + 1, decided) == ExclPass(s, k, decided)
    ensures forall w: Val :: s.grid[k].step < 0 ==> !Excluded(s.grid, k, w)
  {
    ValueAt(0);
  }

  /**
   * ruleExcludedVal: a pass, then valid; if the pass decided a cell and cells are
   * left undecided, ruleOneValLeft and then the rule itself run again. When it
   * passes, the state is valid and either solved or without an excluded candidate.
   */
  function ExcludedVal(s: Snap): (r: Step)
    requires Good(s)
    ensures Good(r.after) && Follows(s, r.after, {'O', 'E'})
    ensures r.outcome.Pass? ==> ValidGrid(r.after.grid)
    ensures r.outcome.Pass? ==>
      CountFinal(r.after.grid) == 81 ||
      forall j, w: Val :: 0 <= j < 81 && r.after.grid[j].step < 0 ==> !Excluded(r.after.grid, j, w)
    decreases 81 - CountFinal(s.grid)
  {
    var w := ExclPass(s, 0, false);
    var t := w.step.after;
    FollowsWeaken(s, t, {'E'}, {'O', 'E'});
    if w.step.outcome.Failed? then w.step
    else
      match ValidCheck(t.grid)
      case Failed(e) => Step(t, Failed(e))
      case Pass =>
        if w.decided && CountFinal(t.grid) < 81 then
          var u := OneValLeft(t);
          CountFinalMonotone(t.grid, u.after.grid, 81);
          FollowsTrans(s, t, u.after, {'E'}, {'O'});
          if u.outcome.Failed? then u
          else
            var r := ExcludedVal(u.after);
            FollowsTrans(s, u.after, r.after, {'E', 'O'}, {'O', 'E'});
            r
        else if !w.decided then
          ExclPassQuiet(s, 0, false);
          Step(t, Pass)
        else Step(t, Pass)
  }

  // ---------------------------------------------------------------------------
  // Rule 'B' (pickCell, ruleBacktracker)

  /** A cell pickCell may choose: not visited and not decided. */
  predicate Eligible(g: Grid, vis: seq<bool>, i: int)
    requires |g| == 81 && |vis| == 81 && 0 <= i < 81
  {
    !vis[i] && g[i].step < 0
  }

  /** The last eligible cell before position k: the first loop of pickCell. */
  function LastEligible(g: Grid, vis: seq<bool>, k: nat): (r: Option<int>)
    requires |g| == 81 && |vis| == 81 && k <= 81
    ensures r.Some? ==> 0 <= r.value < k && Eligible(g, vis, r.value)
    ensures r.Some? ==> forall j :: r.value < j < k ==> !Eligible(g, vis, j)
    ensures r.None? <==> forall j :: 0 <= j < k ==> !Eligible(g, vis, j)
  {
    if k == 0 then None
    else if Eligible(g, vis, k - 1) then Some(k - 1)
    else LastEligible(g, vis, k - 1)
  }

  /**
   * The second loop of pickCell from position k on, with best the current choice:
   * replaced only by a cell with strictly fewer candidates, stopping at the first
   * replacement with at most two.
   */
  function ScanMin(g: Grid, vis: seq<bool>, k: nat, best: int): (r: int)
    requires |g| == 81 && |vis| == 81 && k <= 81 && 0 <= best < 81 && Eligible(g, vis, best)
    ensures 0 <= r < 81 && Eligible(g, vis, r) && |g[r].vals| <= |g[best].vals|
    ensures (forall j :: 0 <= j < k && Eligible(g, vis, j) ==> |g[best].vals| <= |g[j].vals|) && |g[r].vals| > 2 ==>
      forall j :: 0 <= j < 81 && Eligible(g, vis, j) ==> |g[r].vals| <= |g[j].vals|
    decreases 81 - k
  {
    if k == 81 then best
    else if Eligible(g, vis, k) && |g[k].vals| < |g[best].vals| then
      if |g[k].vals| <= 2 then k else ScanMin(g, vis, k + 1, k)
    else ScanMin(g, vis, k + 1, best)
  }

  /**
   * pickCell: no cell when every cell is visited or decided; otherwise an
   * eligible cell, which has the fewest candidates whenever it has more than two.
   */
  function Pick(g: Grid, vis: seq<bool>): (r: Option<int>)
    requires |g| == 81 && |vis| == 81
    ensures r.None? <==> forall j :: 0 <= j < 81 ==> !Eligible(g, vis, j)
    ensures r.Some? ==> 0 <= r.value < 81 && Eligible(g, vis, r.value)
    ensures r.Some? && |g[r.value].vals| > 2 ==>
      forall j :: 0 <= j < 81 && Eligible(g, vis, j) ==> |g[r.value].vals| <= |g[j].vals|
  {
    match LastEligible(g, vis, 81)
    case None => None
    case Some(m) => if |g[m].vals| > 2 then Some(ScanMin(g, vis, 0, m)) else Some(m)
  }

  /** The scan starts from the last eligible cell: if that one already has the fewest candidates, it is the one picked. */
  lemma PickPrefersLast(g: Grid, vis: seq<bool>, m: int)
    requires |g| == 81 && |vis| == 81 && LastEligible(g, vis, 81) == Some(m)
    requires forall j :: 0 <= j < 81 && Eligible(g, vis, j) ==> |g[m].vals| <= |g[j].vals|
    ensures Pick(g, vis) == Some(m)
  {
    if |g[m].vals| > 2 {
      KeepsBest(g, vis, 0, m);
    }
  }

  lemma {:induction false} KeepsBest(g: Grid, vis: seq<bool>, k: nat, best: int)
    requires |g| == 81 && |vis| == 81 && k <= 81 && 0 <= best < 81 && Eligible(g, vis, best)
    requires forall j :: k <= j < 81 && Eligible(g, vis, j) ==> |g[best].vals| <= |g[j].vals|
    ensures ScanMin(g, vis, k, best) == best
    decreases 81 - k
  {
    if k < 81 {
      KeepsBest(g, vis, k + 1, best);
    }
  }

  /** The number of cells not visited yet. */
  function Unvisited(vis: seq<bool>): (n: nat)
    ensures n <= |vis|
  {
    if vis == [] then 0 else Unvisited(vis[1..]) + (if vis[0] then 0 else 1)
  }

  /** Marks are only ever added. */
  predicate VisitedGrows(vis: seq<bool>, vis': seq<bool>)
  {
    |vis| == |vis'| && forall k :: 0 <= k < |vis| && vis[k] ==> vis'[k]
  }

  /** Adding marks never raises the number of unvisited cells, and marking an unvisited cell lowers it. */
  lemma {:induction false} UnvisitedShrinks(vis: seq<bool>, vis': seq<bool>)
    requires VisitedGrows(vis, vis')
    ensures Unvisited(vis') <= Unvisited(vis)
    ensures (exists k :: 0 <= k < |vis| && !vis[k] && vis'[k]) ==> Unvisited(vis') < Unvisited(vis)
  {
    if vis != [] {
      assert VisitedGrows(vis[1..], vis'[1..]);
      UnvisitedShrinks(vis[1..], vis'[1..]);
      if exists k :: 0 <= k < |vis| && !vis[k] && vis'[k] {
        var k :| 0 <= k < |vis| && !vis[k] && vis'[k];
        if k > 0 {
          assert !vis[1..][k - 1] && vis'[1..][k - 1];
        }
      }
    }
  }

  /** A solved state: valid, with every cell decided. */
  predicate Solved(s: Snap)
    requires |s.grid| == 81
  {
    ValidGrid(s.grid) && CountFinal(s.grid) == 81
  }

  /**
   * The outcome of ruleBacktracker on one state: where that state ended (its
   * cells as before, its counter raised by the failed trials), the solution or
   * the failure, and the shared visited marks.
   */
  datatype Trial = Trial(self: Snap, result: Result<Snap>, visited: seq<bool>)

  /** ruleBacktracker: pick a cell and mark it visited, then try its candidates; no cell to pick is a failure. */
  function Backtrack(s: Snap, vis: seq<bool>): (r: Trial)
    requires Good(s) && |vis| == 81
    ensures Good(r.self) && r.self.grid == s.grid && s.steps <= r.self.steps
    ensures VisitedGrows(vis, r.visited) && Unvisited(r.visited) <= Unvisited(vis)
    ensures r.result.Ok? ==> |r.result.value.grid| == 81
    decreases Unvisited(vis), 0, 0, 0
  {
    match Pick(s.grid, vis)
    case None => Trial(s, Fail(NoSolutionAtAll), vis)
    case Some(i) =>
      var vis' := vis[i := true];
      UnvisitedShrinks(vis, vis');
      var r := TryVals(s, i, 0, vis');
      UnvisitedShrinks(vis', r.visited);
      r
  }

  /**
   * The candidates of cell i from the constant at position j on, each tried on a
   * fresh clone; the first success is the result. A failed trial adds the clone's
   * whole counter to this state's counter; when all fail, the cell has no solution.
   * A failing clone is not caught.
   */
  function TryVals(s: Snap, i: int, j: nat, vis: seq<bool>): (r: Trial)
    requires Good(s) && 0 <= i < 81 && j <= 9 && |vis| == 81
    ensures Good(r.self) && r.self.grid == s.grid && s.steps <= r.self.steps
    ensures VisitedGrows(vis, r.visited) && Unvisited(r.visited) <= Unvisited(vis)
    ensures r.result.Ok? ==> |r.result.value.grid| == 81
    decreases Unvisited(vis), 2, 9 - j, 1
  {
    if j == 9 then Trial(s, Fail(NoSolutionForCell(i)), vis)
    else if Values[j] !in s.grid[i].vals then TryVals(s, i, j + 1, vis)
    else
      match CloneSnap(s)
      case Fail(e) => Trial(s, Fail(e), vis)
      case Ok(c) => AfterTrial(s, i, j, vis, Attempt(c, i, Values[j], vis))
  }

  /**
   * What follows the trial t of the candidate at position j: its success ends
   * the loop; its failure charges the clone's counter and the loop goes on.
   */
  function AfterTrial(s: Snap, i: int, j: nat, vis: seq<bool>, t: Trial): (r: Trial)
    requires Good(s) && 0 <= i < 81 && j < 9 && |vis| == 81
    requires Good(t.self) && VisitedGrows(vis, t.visited) && Unvisited(t.visited) <= Unvisited(vis)
    requires t.result.Ok? ==> |t.result.value.grid| == 81
    ensures Good(r.self) && r.self.grid == s.grid && s.steps <= r.self.steps
    ensures VisitedGrows(vis, r.visited) && Unvisited(r.visited) <= Unvisited(vis)
    ensures r.result.Ok? ==> |r.result.value.grid| == 81
    decreases Unvisited(vis), 2, 9 - j, 0
  {
    if t.result.Ok? then Trial(s, t.result, t.visited)
    else TryVals(Snap(s.grid, s.steps + t.self.steps), i, j + 1, t.visited)
  }

  /** Backtracking after pickCell chose cell i: its candidates are tried with i marked visited. */
  lemma BacktrackPicked(s: Snap, vis: seq<bool>, i: int)
    requires Good(s) && |vis| == 81 && Pick(s.grid, vis) == Some(i)
    ensures Backtrack(s, vis) == TryVals(s, i, 0, vis[i := true])
  {
  }

  /** A constant that is not a candidate of cell i is passed over. */
  lemma TryValsSkip(s: Snap, i: int, j: nat, vis: seq<bool>)
    requires Good(s) && 0 <= i < 81 && j < 9 && |vis| == 81 && Values[j] !in s.grid[i].vals
    ensures TryVals(s, i, j, vis) == TryVals(s, i, j + 1, vis)
  {
  }

  /** A candidate whose clone fails ends the whole loop with that failure. */
  lemma TryValsCloneFails(s: Snap, i: int, j: nat, vis: seq<bool>)
    requires Good(s) && 0 <= i < 81 && j < 9 && |vis| == 81 && Values[j] in s.grid[i].vals
    requires CloneSnap(s).Fail?
    ensures TryVals(s, i, j, vis) == Trial(s, Fail(CloneSnap(s).error), vis)
  {
  }

  /** A candidate whose trial on the clone c succeeds ends the loop with that success. */
  lemma TryValsSolved(s: Snap, i: int, j: nat, vis: seq<bool>, c: Snap, t: Trial)
    requires Good(s) && 0 <= i < 81 && j < 9 && |vis| == 81 && Values[j] in s.grid[i].vals
    requires CloneSnap(s) == Ok(c) && t == Attempt(c, i, Values[j], vis) && t.result.Ok?
    ensures TryVals(s, i, j, vis) == Trial(s, t.result, t.visited)
  {
  }

  /** A candidate whose trial on the clone c fails charges the clone's counter, and the loop goes on. */
  lemma TryValsCaught(s: Snap, i: int, j: nat, vis: seq<bool>, c: Snap, t: Trial)
    requires Good(s) && 0 <= i < 81 && j < 9 && |vis| == 81 && Values[j] in s.grid[i].vals
    requires CloneSnap(s) == Ok(c) && t == Attempt(c, i, Values[j], vis) && t.result.Fail?
    ensures TryVals(s, i, j, vis) == TryVals(Snap(s.grid, s.steps + t.self.steps), i, j + 1, t.visited)
  {
    assert TryVals(s, i, j, vis) == AfterTrial(s, i, j, vis, t);
    AfterTrialCaught(s, i, j, vis, t);
  }

  /** A candidate whose clone is c continues with the trial on c. */
  lemma TryValsTries(s: Snap, i: int, j: nat, vis: seq<bool>, c: Snap)
    requires Good(s) && 0 <= i < 81 && j < 9 && |vis| == 81 && Values[j] in s.grid[i].vals
    requires CloneSnap(s) == Ok(c)
    ensures TryVals(s, i, j, vis) == AfterTrial(s, i, j, vis, Attempt(c, i, Values[j], vis))
  {
  }

  lemma AfterTrialCaught(s: Snap, i: int, j: nat, vis: seq<bool>, t: Trial)
    requires Good(s) && 0 <= i < 81 && j < 9 && |vis| == 81
    requires Good(t.self) && VisitedGrows(vis, t.visited) && Unvisited(t.visited) <= Unvisited(vis)
    requires t.result.Ok? ==> |t.result.value.grid| == 81
    requires t.result.Fail?
    ensures AfterTrial(s, i, j, vis, t) == TryVals(Snap(s.grid, s.steps + t.self.steps), i, j + 1, t.visited)
  {
  }

  /**
   * One trial on the clone c: decide v for cell i with tag 'B', run rules 'O' and 'E',
   * check validity, and backtrack further while cells are undecided. On failure,
   * self is where the clone ended.
   */
  function Attempt(c: Snap, i: int, v: Val, vis: seq<bool>): (r: Trial)
    requires Good(c) && 0 <= i < 81 && |vis| == 81
    ensures Good(r.self) && VisitedGrows(vis, r.visited) && Unvisited(r.visited) <= Unvisited(vis)
    ensures r.result.Ok? ==> |r.result.value.grid| == 81
    decreases Unvisited(vis), 1, 0, 1
  {
    var t1 := SetFinal(c, i, v, 'B');
    if t1.outcome.Failed? then Trial(t1.after, Fail(t1.outcome.error), vis)
    else
      var t2 := OneValLeft(t1.after);
      if t2.outcome.Failed? then Trial(t2.after, Fail(t2.outcome.error), vis)
      else
        var t3 := ExcludedVal(t2.after);
        if t3.outcome.Failed? then Trial(t3.after, Fail(t3.outcome.error), vis)
        else Finish(t3.after, vis)
  }

  /** The end of a trial, after rule 'E': check validity, then backtrack further while cells are undecided. */
  function Finish(u: Snap, vis: seq<bool>): (r: Trial)
    requires Good(u) && |vis| == 81
    ensures Good(r.self) && VisitedGrows(vis, r.visited) && Unvisited(r.visited) <= Unvisited(vis)
    ensures r.result.Ok? ==> |r.result.value.grid| == 81
    decreases Unvisited(vis), 1, 0, 0
  {
    match ValidCheck(u.grid)
    case Failed(e) => Trial(u, Fail(e), vis)
    case Pass =>
      if CountFinal(u.grid) < 81 then Backtrack(u, vis)
      else Trial(u, Ok(u), vis)
  }

  /**
   * What ruleBacktracker promises on normal return: the state it returns passed
   * valid() with all 81 cells decided, and it descends from the state the rule
   * started from (candidates only removed, decided cells kept decided, the
   * counter not lowered).
   */
  lemma {:induction false} BacktrackSolves(s: Snap, vis: seq<bool>)
    requires Good(s) && |vis| == 81
    ensures var r := Backtrack(s, vis);
      r.result.Ok? ==> Good(r.result.value) && Solved(r.result.value) && Progress(s, r.result.value)
    decreases Unvisited(vis), 0, 0, 0
  {
    match Pick(s.grid, vis)
    case None =>
    case Some(i) =>
      var vis' := vis[i := true];
      UnvisitedShrinks(vis, vis');
      TryValsSolves(s, i, 0, vis');
  }

  lemma {:induction false} TryValsSolves(s: Snap, i: int, j: nat, vis: seq<bool>)
    requires Good(s) && 0 <= i < 81 && j <= 9 && |vis| == 81
    ensures var r := TryVals(s, i, j, vis);
      r.result.Ok? ==> Good(r.result.value) && Solved(r.result.value) && Progress(s, r.result.value)
    decreases Unvisited(vis), 2, 9 - j, 1
  {
    if j < 9 {
      if Values[j] !in s.grid[i].vals {
        TryValsSkip(s, i, j, vis);
        TryValsSolves(s, i, j + 1, vis);
      } else if CloneSnap(s).Ok? {
        var c := CloneSnap(s).value;
        var t := Attempt(c, i, Values[j], vis);
        AttemptSolves(c, i, Values[j], vis);
        if t.result.Ok? {
          TryValsSolved(s, i, j, vis, c, t);
          ProgressTrans(s, c, t.result.value);
        } else {
          TryValsCaught(s, i, j, vis, c, t);
          var s' := Snap(s.grid, s.steps + t.self.steps);
          TryValsSolves(s', i, j + 1, t.visited);
          var r := TryVals(s', i, j + 1, t.visited);
          if r.result.Ok? {
            ProgressTrans(s, s', r.result.value);
          }
        }
      } else {
        TryValsCloneFails(s, i, j, vis);
      }
    }
  }

  lemma {:induction false} AttemptSolves(c: Snap, i: int, v: Val, vis: seq<bool>)
    requires Good(c) && 0 <= i < 81 && |vis| == 81
    ensures var r := Attempt(c, i, v, vis);
      r.result.Ok? ==> Good(r.result.value) && Solved(r.result.value) && Progress(c, r.result.value)
    decreases Unvisited(vis), 1, 0, 1
  {
    var t1 := SetFinal(c, i, v, 'B');
    if t1.outcome.Pass? {
      var t2 := OneValLeft(t1.after);
      if t2.outcome.Pass? {
        var t3 := ExcludedVal(t2.after);
        if t3.outcome.Pass? {
          var u := t3.after;
          ProgressTrans(c, t1.after, t2.after);
          ProgressTrans(c, t2.after, u);
          FinishSolves(u, vis);
          var f := Finish(u, vis);
          if f.result.Ok? {
            ProgressTrans(c, u, f.result.value);
          }
        }
      }
    }
  }

  lemma {:induction false} FinishSolves(u: Snap, vis: seq<bool>)
    requires Good(u) && |vis| == 81
    ensures var r := Finish(u, vis);
      r.result.Ok? ==> Good(r.result.value) && Solved(r.result.value) && Progress(u, r.result.value)
    decreases Unvisited(vis), 1, 0, 0
  {
    if ValidCheck(u.grid).Pass? {
      if CountFinal(u.grid) < 81 {
        BacktrackSolves(u, vis);
      } else {
        CountFinalAll(u.grid, 81);
      }
    }
  }

  // ---------------------------------------------------------------------------
  // The whole solver (RunSudoku.run, once the state is built)

  /** The closing valid() check of a run. */
  function Verified(u: Snap): (r: Result<Snap>)
    requires |u.grid| == 81
    ensures r.Ok? <==> ValidGrid(u.grid)
    ensures r.Ok? ==> r.value == u
  {
    match ValidCheck(u.grid)
    case Failed(e) => Fail(e)
    case Pass => Ok(u)
  }

  /**
   * One pass of rule 'O'; rule 'E' when fewer than 81 cells are decided; the
   * backtracker with no cell visited when still fewer than 81 are; then valid()
   * on whatever state the rules produced. The first failure ends the run.
   */
  function Pipeline(s: Snap): Result<Snap>
    requires Good(s)
  {
    var t1 := OneValPass(s, 0);
    if t1.outcome.Failed? then Fail(t1.outcome.error)
    else if CountFinal(t1.after.grid) >= 81 then Verified(t1.after)
    else PipelineRest(t1.after)
  }

  /** The run after the pass of rule 'O', when fewer than 81 cells are decided. */
  function PipelineRest(u: Snap): Result<Snap>
    requires Good(u)
  {
    var t2 := ExcludedVal(u);
    if t2.outcome.Failed? then Fail(t2.outcome.error)
    else if CountFinal(t2.after.grid) >= 81 then Verified(t2.after)
    else Search(t2.after)
  }

  /** The valid() that follows a completed rule 'E' in a run never fails: rule 'E' already ends on a valid state. */
  lemma VerifiedAfterExcluded(u: Snap)
    requires Good(u)
    ensures ExcludedVal(u).outcome.Pass? ==> Verified(ExcludedVal(u).after) == Ok(ExcludedVal(u).after)
  {
  }

  /** The backtracker with no cell visited yet, then valid() on the state it returns. */
  function Search(u: Snap): Result<Snap>
    requires Good(u)
  {
    var b := Backtrack(u, seq(81, _ => false));
    if b.result.Fail? then Fail(b.result.error) else Verified(b.result.value)
  }

  /**
   * A run that ends normally yields a solved state (valid, every cell decided)
   * that descends from the state it started from.
   */
  lemma PipelineSolves(s: Snap)
    requires Good(s)
    ensures Pipeline(s).Ok? ==> Good(Pipeline(s).value) && Solved(Pipeline(s).value) && Progress(s, Pipeline(s).value)
  {
    var t1 := OneValPass(s, 0);
    if t1.outcome.Pass? && CountFinal(t1.after.grid) < 81 {
      assert Pipeline(s) == PipelineRest(t1.after);
      PipelineRestSolves(t1.after);
      var r := PipelineRest(t1.after);
      if r.Ok? {
        ProgressTrans(s, t1.after, r.value);
      }
    }
  }

  lemma PipelineRestSolves(u: Snap)
    requires Good(u)
    ensures PipelineRest(u).Ok? ==> Good(PipelineRest(u).value) && Solved(PipelineRest(u).value) && Progress(u, PipelineRest(u).value)
  {
    var t2 := ExcludedVal(u);
    if t2.outcome.Pass? && CountFinal(t2.after.grid) < 81 {
      SearchSolves(t2.after);
      var r := Search(t2.after);
      if r.Ok? {
        ProgressTrans(u, t2.after, r.value);
      }
    }
  }

  lemma SearchSolves(u: Snap)
    requires Good(u)
    ensures Search(u).Ok? ==> Good(Search(u).value) && Solved(Search(u).value) && Progress(u, Search(u).value)
  {
    BacktrackSolves(u, seq(81, _ => false));
  }
}
