/**
 * RunSudoku.run without its timing and logging: parse the string, build the
 * State, run the solver, and hand back the state it ended with.
 */
module RunSudoku {
  import opened Dbc
  import opened Vals
  import opened Cells
  import opened Grids
  import opened Rules
  import opened States
  import RuleMachine
  import opened Do

  /** The whole run on values: check, construct, then the rules and the final valid(). */
  function SolveText(s: string): Result<Snap>
  {
    match Built(s)
    case Fail(e) => Fail(e)
    case Ok(u) => Pipeline(u)
  }

  /**
   * A run that ends normally fills the puzzle: every cell is decided with exactly
   * one candidate, no two cells of a row, column or block share it, and every
   * clue of the string keeps its value.
   */
  lemma SolutionFillsPuzzle(s: string)
    ensures SolveText(s).Ok? ==>
      Check(s).Pass? &&
      var g := SolveText(s).value.grid;
      |g| == 81 && ValidGrid(g) &&
      (forall i :: 0 <= i < 81 ==> g[i].step >= 0 && |g[i].vals| == 1) &&
      (forall i :: 0 <= i < 81 && '1' <= s[i] <= '9' ==> g[i].vals == Puzzle(s)[i].vals)
  {
    if SolveText(s).Ok? {
      var p := Puzzle(s);
      var u := Construct(p).value;
      PipelineSolves(u);
      var t := SolveText(s).value;
      ProgressTrans(Snap(p, 0), u, t);
      SolvedFilled(t);
      CluesKept(s, t.grid);
    }
  }

  /** A solved state has every cell decided with exactly one candidate. */
  lemma SolvedFilled(t: Snap)
    requires Good(t) && Solved(t)
    ensures forall i :: 0 <= i < 81 ==> t.grid[i].step >= 0 && |t.grid[i].vals| == 1
  {
    var g := t.grid;
    CountFinalAll(g, 81);
    forall i | 0 <= i < 81
      ensures g[i].step >= 0 && |g[i].vals| == 1
    {
      assert g[i].vals != {};
      assert g[i].Consistent();
    }
  }

  /** Cells that evolved from the puzzle down to one candidate each still hold the clues. */
  lemma CluesKept(s: string, g: Grid)
    requires Check(s).Pass? && Evolves(Puzzle(s), g)
    requires forall i :: 0 <= i < 81 ==> |g[i].vals| == 1
    ensures forall i :: 0 <= i < 81 && '1' <= s[i] <= '9' ==> g[i].vals == Puzzle(s)[i].vals
  {
    var p := Puzzle(s);
    forall i | 0 <= i < 81 && '1' <= s[i] <= '9'
      ensures g[i].vals == p[i].vals
    {
      PuzzleCells(s, i);
      var a, b := g[i].vals, p[i].vals;
      assert |a| == 1 && a <= b && |b| == 1;
      assert b == a + (b - a) && |b - a| == 0;
    }
  }

  /** run: new State(string2cells(s)), then the solver. */
  method Run(s: string) returns (r: Result<State>)
    ensures r.Ok? <==> SolveText(s).Ok?
    ensures r.Fail? ==> r.error == SolveText(s).error
    ensures r.Ok? ==> fresh(r.value) && fresh(r.value.Repr) && r.value.Valid() && r.value.Snapshot() == SolveText(s).value
  {
    var loaded := Load(s);
    if loaded.Fail? {
      return Fail(loaded.error);
    }
    r := RuleMachine.Run(loaded.value);
  }
}
