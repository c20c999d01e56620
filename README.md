# sudoku-java, modelled in Dafny

This project models the solver core of the `de.budde.sudoku` package: a 9x9
Sudoku board of 81 cells, each holding a set of candidate values, the step at
which its value was decided and the tag of the rule that decided it; the fixed
topology of rows, columns and 3x3 blocks; and three rules that narrow the
candidates until every cell is decided:

- 'O' (one value left): decide each undecided cell that has one candidate left.
- 'E' (excluded value): decide a candidate that has no other place in one of the
  cell's row, column or block.
- 'B' (backtracker): pick a cell, try each candidate on a clone of the board,
  and keep the first trial that ends in a solved board.

A puzzle arrives as a string of 81 characters (`'1'..'9'`, `' '`, `'.'`), is
turned into cells, and is handed to the board, which propagates every clue to its
peers and checks validity.

Every DBC exception of the source becomes a failure value: `Outcome.Failed(e)`
for void operations and `Result.Fail(e)` for operations returning a value (module
`Dbc`), and every caller passes such a failure straight on, as the exception
would, except for the one `catch` block of the backtracker.

The project is organised as follows:

- `vals.dfy` (`Vals`), `cells.dfy` (`Cells`), `structure.dfy` (`Structure`) and
  `do.dfy` (`Do`) follow `Val.java`, `Cell.java`, `Structure.java` and
  `Do.java`.
  - `Cell` is a class whose methods update its fields.
  - The initialisers of `Structure` are methods over arrays.
- `states.dfy` (`States`) holds class `State`, the board. Its cells live in an
  `array<Cell>`, and its methods change the cells in place.
  - Each method is proved against a function of module `Grids` (`grids.dfy`),
    which says what the operation does to a value snapshot `Snap(grid, steps)`
    of the board.
- `rule_machine.dfy` (`RuleMachine`) holds the three rules as methods with the
  source's loops and recursion. Each is proved to compute exactly a function of
  module `Rules` (`rules.dfy`).
  - What the rules achieve is proved once, in `Rules`, about those functions:
    fixpoints, the pick heuristic, and the backtracker returning only solved
    descendants.
- `run_sudoku.dfy` (`RunSudoku`) models `RunSudoku.run` without its timing and
  logging, and proves that a run which ends normally fills the puzzle while
  keeping every clue.

## Model

| member | source | states |
|---|---|---|
| Vals.ValuesNumbered | src/main/java/de/budde/sudoku/Val.java:9-15 | the nine constants, in declaration order, carry the numbers 1..9 |
| Vals.ValueAt | src/main/java/de/budde/sudoku/Val.java:9-15 | the constant at position j is the only one numbered j + 1 |
| Vals.ValuesAscending | src/main/java/de/budde/sudoku/Val.java:9-15 | declaration order is strictly ascending in the numbers, so the constants are distinct |
| Vals.OfFrom | src/main/java/de/budde/sudoku/Val.java:33-40 | the lookup loop from position k finds the constant numbered n exactly when k + 1 <= n <= 9, else fails with the invalid value |
| Vals.Of | src/main/java/de/budde/sudoku/Val.java:33-40 | of(int) succeeds exactly for 1..9, returns the constant with that number, and otherwise fails naming n |
| Vals.OfCharDigits | src/main/java/de/budde/sudoku/Val.java:23-25 | of(char) accepts exactly '1'..'9' and maps digit d to the constant numbered d |
| Vals.ToStringRoundTrip | src/main/java/de/budde/sudoku/Val.java:42-45 | toString gives one digit '1'..'9', and of(char) of that digit is the constant again |
| Vals.OfNumber | src/main/java/de/budde/sudoku/Val.java:33-40 | every constant's number lies in 1..9 and of(int) maps it back to the constant |
| Cells.FirstFrom | src/main/java/de/budde/sudoku/Cell.java:160-164 | the first member of a set in declaration order from position k: a member at or after k with the least number among those, and none exactly when no member lies at or after k |
| Cells.FirstOfSingleton | src/main/java/de/budde/sudoku/Cell.java:160-164 | a one-element set is the singleton of the value its iterator yields first |
| Cells.TheVal | src/main/java/de/budde/sudoku/Cell.java:160-164 | getTheFinalVal succeeds exactly for one candidate, returns that candidate, and otherwise fails with NotSingleValued |
| Cells.TheValOfSingleton | src/main/java/de/budde/sudoku/Cell.java:160-164 | {v} answers v; a set of any other size fails |
| Cells.DecideCell | src/main/java/de/budde/sudoku/Cell.java:95-106 | setFinalVal on a cell value: refused as "second time" exactly when step > 0, else refused as impossible when v is not a candidate, else candidates {v} with the given step and tag |
| Cells.DecideOnce | src/main/java/de/budde/sudoku/Cell.java:97-98 | a cell decided at a step > 0 refuses every further decision; a clue (step 0) accepts a second decision exactly for its own value |
| Cells.DecideConsistent | src/main/java/de/budde/sudoku/Cell.java:99-102 | a successful decision leaves one candidate, and the cell is finalized exactly when the step is not negative |
| Cells.Cell.constructor | src/main/java/de/budde/sudoku/Cell.java:25-30 | a new cell is undecided: step -1, tag '?', the given candidates |
| Cells.Cell.Clone | src/main/java/de/budde/sudoku/Cell.java:37-50 | a fresh object with the same index, candidates, step and tag |
| Cells.Cell.SetInitVal | src/main/java/de/budde/sudoku/Cell.java:78-83 | a clue: candidates {v}, step 0, tag 'I' |
| Cells.Cell.SetFinalVal | src/main/java/de/budde/sudoku/Cell.java:95-106 | the new value is DecideCell of the old one; a refusal leaves the cell unchanged and reports DecideCell's error |
| Cells.Cell.RemoveFromSetOfPossibleValues | src/main/java/de/budde/sudoku/Cell.java:113-115 | v leaves the candidates (no error when absent); index, step and tag stay |
| Cells.IndexRoundTrip | src/main/java/de/budde/sudoku/Cell.java:199-214 | for each index 0..80, idx2xy gives coordinates in 1..9 and xy2idx maps them back |
| Cells.CoordinateRoundTrip | src/main/java/de/budde/sudoku/Cell.java:199-214 | for each pair of coordinates in 1..9, xy2idx gives an index 0..80 and idx2xy maps it back |
| Cells.CellCoordinates | src/main/java/de/budde/sudoku/Cell.java:62-71 | getX and getY are the coordinates idx2xy gives for the cell's index, both in 1..9 |
| Structure.Inc | src/main/java/de/budde/sudoku/Structure.java:128-134 | inc returns a new 9-element array whose entries are the first 9 entries of the argument moved by incr |
| Structure.Ia | src/main/java/de/budde/sudoku/Structure.java:106-108 | ia returns a new array holding the given entries |
| Structure.RowsFollowInitializer | src/main/java/de/budde/sudoku/Structure.java:10-18 | the row table starts with H1, and each row is the previous one moved by 9 |
| Structure.ColumnsFollowInitializer | src/main/java/de/budde/sudoku/Structure.java:20-28 | the column table starts with V1, and each column is the previous one moved by 1 |
| Structure.BlocksFollowInitializer | src/main/java/de/budde/sudoku/Structure.java:31-39 | the block table starts with B1, moves by 3 within a band, and B4 and B7 are B1 moved by 27 and 54 |
| Structure.BlockStep | src/main/java/de/budde/sudoku/Structure.java:32-39 | block b is block a moved by d whenever the block arithmetic says so |
| Structure.BuildRows | src/main/java/de/budde/sudoku/Structure.java:10-18 | running the field initializers H1..H9 yields the row table ALL_H |
| Structure.BuildColumns | src/main/java/de/budde/sudoku/Structure.java:20-28 | running the field initializers V1..V9 yields the column table ALL_V |
| Structure.BuildBlocks | src/main/java/de/budde/sudoku/Structure.java:31-39 | running the field initializers B1..B9 yields the block table ALL_B |
| Structure.BlockNumberRange | src/main/java/de/budde/sudoku/Structure.java:59-60 | the block number computed from the xy2block corner is (x-1)/3 + 3*((y-1)/3), in 0..8 |
| Structure.BlockCorner | src/main/java/de/budde/sudoku/Structure.java:92-97 | xy2block gives a corner in {1, 4, 7} on each axis, at most 2 below the coordinate |
| Structure.BuildNeighborhoodMapping | src/main/java/de/budde/sudoku/Structure.java:53-64 | the static initializer's loop builds exactly the mapping from every index 0..80 to its row, column and block |
| Structure.GetNeighborHood | src/main/java/de/budde/sudoku/Structure.java:73-75 | the groups of index idx are row idx/9, column idx%9 and block idx%9/3 + 3*(idx/9/3) |
| Structure.NeighborhoodArithmetic | src/main/java/de/budde/sudoku/Structure.java:55-62 | the initializer's idx2xy and xy2block arithmetic selects exactly that row, column and block |
| Structure.GetAllNeighborhoods | src/main/java/de/budde/sudoku/Structure.java:45-46 | 27 groups of 9 indices in 0..80: the rows, then the columns, then the blocks |
| Structure.GroupEntries | src/main/java/de/budde/sudoku/Structure.java:41-46 | ALL_NEIGHBARHOODS has 27 groups, rows then columns then blocks, each with 9 indices in 0..80 |
| Structure.NeighborhoodGroups | src/main/java/de/budde/sudoku/Structure.java:147-149 | the three groups the stream yields are groups of 9 indices |
| Structure.RowMembers | src/main/java/de/budde/sudoku/Structure.java:10-18 | row r holds exactly the indices whose row is r |
| Structure.ColMembers | src/main/java/de/budde/sudoku/Structure.java:20-28 | column c holds exactly the indices whose column is c |
| Structure.BlockMembers | src/main/java/de/budde/sudoku/Structure.java:31-39 | block b holds exactly the indices whose block is b |
| Structure.ExactlyOneOfEach | src/main/java/de/budde/sudoku/Structure.java:45-46 | each index lies in exactly three of the 27 groups: one row, one column, one block |
| Structure.NeighborhoodIsPeers | src/main/java/de/budde/sudoku/Structure.java:73-75 | a cell lies in its own three groups, and the other members of those groups are exactly the cells sharing its row, column or block |
| Grids.ProgressTrans | src/main/java/de/budde/sudoku/State.java:143-145 | evolution of a board (candidates only removed, decided cells stay decided, counter never lowered) composes |
| Grids.CountFinalUpTo | src/main/java/de/budde/sudoku/State.java:92-100 | the number of finalized cells among the first n is at most n |
| Grids.CountFinalMonotone | src/main/java/de/budde/sudoku/State.java:92-100 | evolution never lowers getNumberFinalized, and deciding a cell raises it |
| Grids.CountFinalGrows | src/main/java/de/budde/sudoku/State.java:92-100 | deciding one more cell raises the count strictly |
| Grids.CountFinalAll | src/main/java/de/budde/sudoku/State.java:92-100 | the count equals the number of cells exactly when every cell is finalized |
| Grids.RemoveFromGroupStep | src/main/java/de/budde/sudoku/State.java:258-265 | walking one more entry of the group removes v from that entry too, unless it is the finalized cell |
| Grids.ThreeGroupsArePeers | src/main/java/de/budde/sudoku/State.java:68-69 | removing v from the row, the column and the block of cell i is removing it from exactly the peers of i |
| Grids.RemoveThreeAt | src/main/java/de/budde/sudoku/State.java:68-69 | after the three removals a cell lost v exactly when one of the three groups holds it and it is not cell i |
| Grids.RemoveFromPeersEvolves | src/main/java/de/budde/sudoku/State.java:258-265 | removal keeps every cell consistent, only shrinks candidates, and keeps steps and tags |
| Grids.FirstEmpty | src/main/java/de/budde/sudoku/State.java:110-113 | the first loop of valid finds the first cell without a candidate, or none when every cell has one |
| Grids.GroupScan | src/main/java/de/budde/sudoku/State.java:115-125 | the scan of one group reports a duplicate exactly when two single-valued cells of the group hold the same value |
| Grids.GroupsScan | src/main/java/de/budde/sudoku/State.java:114-126 | the scan of groups n..26 passes exactly when each of them has distinct single values, else names the group and the index |
| Grids.ValidCheck | src/main/java/de/budde/sudoku/State.java:109-127 | valid passes exactly on a valid grid (no empty domain, distinct single values in every group) and otherwise reports EmptyDomain or DuplicateValue |
| Grids.SetFinal | src/main/java/de/budde/sudoku/State.java:64-71 | setFinalCellVal raises the counter by one even when refused, only evolves cells, touches no other cell's step or tag, and passes only on a valid grid |
| Grids.SetFinalEffect | src/main/java/de/budde/sudoku/State.java:64-71 | a refusal leaves every cell and reports the cell's error; an acceptance decides cell i, removes v from exactly its peers, and passes exactly when the result is valid |
| Grids.SetFinalAccepted | src/main/java/de/budde/sudoku/State.java:64-71 | the accepted case equals decide, then remove from the three groups, then valid, in that order |
| Grids.SetFinalRefused | src/main/java/de/budde/sudoku/State.java:65-66 | the refused case moves only the counter |
| Grids.SetFinalKeepsClues | src/main/java/de/budde/sudoku/State.java:64-71 | an accepted decision keeps every clue single-valued and unshared with its peers |
| Grids.ImpossibleSomewhereSplit | src/main/java/de/budde/sudoku/State.java:84-86 | the query holds exactly when one of the three streamed groups excludes v |
| Grids.ImpossibleSomewhereMeaning | src/main/java/de/budde/sudoku/State.java:80-87 | the query holds exactly when no other cell of the row, or of the column, or of the block still allows v |
| Grids.RowImpossible | src/main/java/de/budde/sudoku/State.java:239-249 | the row group excludes v exactly when no other cell of the row allows it |
| Grids.ColImpossible | src/main/java/de/budde/sudoku/State.java:239-249 | the column group excludes v exactly when no other cell of the column allows it |
| Grids.BlockImpossible | src/main/java/de/budde/sudoku/State.java:239-249 | the block group excludes v exactly when no other cell of the block allows it |
| Grids.PropagateInit | src/main/java/de/budde/sudoku/State.java:206-215 | propagating clues only evolves cells and keeps steps and tags; when it passes every clue is unshared with its peers, and `Grids.PropagateExact` states that nothing else is removed; it fails only with NotSingleValued |
| Grids.ClueKeepsValue | src/main/java/de/budde/sudoku/State.java:208-212 | the clue propagated at k keeps its value to the end, because any later clue holding that value is a peer that already lost it |
| Grids.ClueStepExact | src/main/java/de/budde/sudoku/State.java:208-212 | propagating the clue at k, then the later clues exactly, removes from each cell exactly the values of the clues among its peers |
| Grids.OtherStepExact | src/main/java/de/budde/sudoku/State.java:207-213 | passing over a cell that is not a clue keeps that exact description |
| Grids.DecidedClueKept | src/main/java/de/budde/sudoku/State.java:209-210 | a decided clue that ends with one candidate ends with the candidate it had |
| Grids.DecidedCluesKept | src/main/java/de/budde/sudoku/State.java:206-215 | the same for every decided clue from position k on |
| Grids.PropagateExact | src/main/java/de/budde/sudoku/State.java:206-215 | a completed propagation leaves every clue one candidate, and a cell keeps a candidate exactly when no clue among its peers holds it, so nothing else is removed |
| Grids.PropagateStep | src/main/java/de/budde/sudoku/State.java:208-212 | propagating one more clue extends the invariant by that clue |
| Grids.Construct | src/main/java/de/budde/sudoku/State.java:27-33 | a built board has counter 0, evolved from the given cells, is valid and has its clues propagated; it fails only with NotSingleValued, EmptyDomain or DuplicateValue |
| Grids.ConstructExact | src/main/java/de/budde/sudoku/State.java:27-33 | a built board's cells hold exactly their old candidates minus the values of the clues among their peers; every clue ends with one candidate, a decided clue with its own |
| Grids.CloneSnap | src/main/java/de/budde/sudoku/State.java:39-48 | a clone keeps the counter, holds evolved cells and is valid |
| Grids.CloneSnapConstruct | src/main/java/de/budde/sudoku/State.java:44-46 | the second valid of clone never fails: a clone fails exactly when the constructor does |
| Grids.RemoveAbsent | src/main/java/de/budde/sudoku/State.java:258-265 | removing a value no peer holds changes nothing |
| Grids.PropagateInitStable | src/main/java/de/budde/sudoku/State.java:206-215 | on propagated clues, propagating again changes nothing |
| Grids.CloneIsCopy | src/main/java/de/budde/sudoku/State.java:39-48 | a clone of a board built by the constructor holds the same cells and counter as its source |
| Grids.EmptyPuzzleBuilds | src/main/java/de/budde/sudoku/State.java:27-33 | a board without clues is built unchanged |
| States.GridOf | src/main/java/de/budde/sudoku/State.java:19 | the values of the cell array form a well-formed grid, cell i at index i |
| States.State.Snapshot | src/main/java/de/budde/sudoku/State.java:19-20 | the cells and the counter of a board form a good snapshot |
| States.State.Init | src/main/java/de/budde/sudoku/State.java:28-29 | the board keeps the given array, counter 0 |
| States.State.Create | src/main/java/de/budde/sudoku/State.java:27-33 | no array or not 81 cells fails with WrongCellCount; otherwise the cells are propagated in place and the result is Construct of the old cells |
| States.State.Build | src/main/java/de/budde/sudoku/State.java:29-32 | the constructor on 81 cells: the cells end as PropagateInit leaves them; success and failure as Construct |
| States.State.Establish | src/main/java/de/budde/sudoku/State.java:30-31 | propagateInitialValues then valid on a fresh board: the cells end as PropagateInit leaves them, and the outcome passes exactly when Construct succeeds, with its board |
| States.State.Clone | src/main/java/de/budde/sudoku/State.java:39-48 | the result is CloneSnap of the board: a fresh board with fresh cells, or the constructor's error |
| States.State.Rebuild | src/main/java/de/budde/sudoku/State.java:44-47 | constructor, counter taken over, valid: equals CloneSnap of the copied cells |
| States.State.TakeOver | src/main/java/de/budde/sudoku/State.java:45-46 | the counter is set, the cells stay, valid's outcome is reported |
| States.State.CopyCells | src/main/java/de/budde/sudoku/State.java:40-43 | a fresh array of fresh cells holding the same values |
| States.State.SetFinalCellVal | src/main/java/de/budde/sudoku/State.java:64-71 | the new board and the outcome are those SetFinal gives |
| States.State.GetNumberFinalized | src/main/java/de/budde/sudoku/State.java:92-100 | the result is the number of finalized cells |
| States.State.CheckValid | src/main/java/de/budde/sudoku/State.java:109-127 | the outcome is ValidCheck of the cells |
| States.State.ScanGroup | src/main/java/de/budde/sudoku/State.java:115-125 | the inner loop of valid finds the first duplicate single value of the group as GroupScan does |
| States.State.IncrSteps | src/main/java/de/budde/sudoku/State.java:143-145 | the counter rises by attempts; cells unchanged |
| States.State.PropagateInitialValues | src/main/java/de/budde/sudoku/State.java:206-215 | cells and outcome are those PropagateInit gives; the counter stays |
| States.State.IsValImpossibleInNeighborhood | src/main/java/de/budde/sudoku/State.java:239-249 | true exactly when no cell of the group but cell mine allows v |
| States.State.ValImpossibleInAtLeastOneNeighborhood | src/main/java/de/budde/sudoku/State.java:80-87 | true exactly when one of the three groups of cell i excludes v |
| States.State.RemoveValueFromNeighborHoods | src/main/java/de/budde/sudoku/State.java:68-69 | removing v from the three groups leaves the cells RemoveFromPeers describes |
| States.State.RemoveValueFromNeighborHood | src/main/java/de/budde/sudoku/State.java:258-265 | v leaves every cell of the group except the finalized one; nothing else changes |
| States.State.RemoveFromCell | src/main/java/de/budde/sudoku/State.java:262 | v leaves the candidates of cell idx only |
| Rules.FollowsTrans | src/main/java/de/budde/sudoku/RuleMachine.java:30-41 | rule effects compose, joining their tags |
| Rules.FollowsWeaken | src/main/java/de/budde/sudoku/RuleMachine.java:74-98 | a rule effect with some tags is one with more tags |
| Rules.SetFinalFollows | src/main/java/de/budde/sudoku/State.java:64-71 | deciding an undecided cell progresses the board, keeps decided cells and tags the new one with the rule |
| Rules.DecidedCellsKept | src/main/java/de/budde/sudoku/RuleMachine.java:30-41 | on a board without an empty domain, a decided cell is left exactly as it was |
| Rules.OneValPass | src/main/java/de/budde/sudoku/RuleMachine.java:52-62 | the pass only progresses the board and tags with 'O'; each counted step decides one more cell; a pass that counts nothing changes nothing; a pass that decided something and passed is valid |
| Rules.OneValPassSkip | src/main/java/de/budde/sudoku/RuleMachine.java:55 | a cell that is not pending is passed over |
| Rules.OneValPassDecide | src/main/java/de/budde/sudoku/RuleMachine.java:55-57 | a pending cell is decided with its candidate, and the pass goes on unless that failed |
| Rules.OneValPassQuiet | src/main/java/de/budde/sudoku/RuleMachine.java:52-62 | a pass that counted nothing met no pending cell |
| Rules.QuietPendingCell | src/main/java/de/budde/sudoku/RuleMachine.java:55-57 | a quiet pass was quiet at its first cell |
| Rules.OneValLeft | src/main/java/de/budde/sudoku/RuleMachine.java:30-41 | ruleOneValLeft only progresses the board with tag 'O', and when it passes no pending cell is left |
| Rules.QuietPass | src/main/java/de/budde/sudoku/RuleMachine.java:52-62 | a pass over cells none of which is pending changes nothing |
| Rules.OneValLeftIdempotent | src/main/java/de/budde/sudoku/RuleMachine.java:30-41 | applied again to the board it passed with, ruleOneValLeft changes nothing |
| Rules.QuietFixpoint | src/main/java/de/budde/sudoku/RuleMachine.java:30-41 | on a board without a pending cell, ruleOneValLeft changes nothing |
| Rules.FirstExcluded | src/main/java/de/budde/sudoku/RuleMachine.java:80-88 | the inner loop finds the least excluded candidate from position j on, and none exactly when there is none |
| Rules.ExclPass | src/main/java/de/budde/sudoku/RuleMachine.java:77-90 | the pass only progresses the board with tag 'E'; decided is set exactly when it counted a step; a pass that counts nothing changes nothing |
| Rules.ExclPassSkip | src/main/java/de/budde/sudoku/RuleMachine.java:79 | a decided cell, or one without an excluded candidate, is passed over |
| Rules.ExclPassDecide | src/main/java/de/budde/sudoku/RuleMachine.java:81-86 | an undecided cell gets its first excluded candidate, and the pass goes on unless that failed |
| Rules.ExclPassQuiet | src/main/java/de/budde/sudoku/RuleMachine.java:77-90 | a pass that counted nothing left no excluded candidate in any undecided cell |
| Rules.QuietExclCell | src/main/java/de/budde/sudoku/RuleMachine.java:79-88 | a quiet pass was quiet at its first cell |
| Rules.ExcludedVal | src/main/java/de/budde/sudoku/RuleMachine.java:74-98 | ruleExcludedVal only progresses the board with tags 'O' and 'E'; when it passes the board is valid and either solved or without any excluded candidate |
| Rules.LastEligible | src/main/java/de/budde/sudoku/RuleMachine.java:153-161 | the first loop of pickCell finds the last cell neither visited nor decided, or none when there is none |
| Rules.ScanMin | src/main/java/de/budde/sudoku/RuleMachine.java:167-184 | the second loop returns an eligible cell with no more candidates than the start, and one with the fewest candidates when it has more than two |
| Rules.Pick | src/main/java/de/budde/sudoku/RuleMachine.java:151-188 | pickCell finds no cell exactly when all are visited or decided; otherwise an eligible cell, with the fewest candidates whenever it has more than two |
| Rules.PickPrefersLast | src/main/java/de/budde/sudoku/RuleMachine.java:153-184 | when the last eligible cell already has the fewest candidates, it is the one picked |
| Rules.KeepsBest | src/main/java/de/budde/sudoku/RuleMachine.java:169-183 | the scan keeps its choice when no later eligible cell has fewer candidates |
| Rules.Unvisited | src/main/java/de/budde/sudoku/RuleMachine.java:108 | the number of unvisited cells is at most the number of cells |
| Rules.UnvisitedShrinks | src/main/java/de/budde/sudoku/RuleMachine.java:186 | adding marks never raises the unvisited count, and marking an unvisited cell lowers it |
| Rules.Backtrack | src/main/java/de/budde/sudoku/RuleMachine.java:111-142 | the backtracker keeps its board's cells, never lowers its counter, only adds visited marks, and fails with NoSolutionAtAll when no cell is picked |
| Rules.TryVals | src/main/java/de/budde/sudoku/RuleMachine.java:117-138 | the candidate loop keeps the board's cells, never lowers the counter, only adds marks, and fails with NoSolutionForCell when every candidate fails |
| Rules.AfterTrial | src/main/java/de/budde/sudoku/RuleMachine.java:131-134 | after a trial: success ends the loop, failure charges the clone's counter and goes on |
| Rules.BacktrackPicked | src/main/java/de/budde/sudoku/RuleMachine.java:115-117 | after pickCell chose cell i, the candidates of i are tried with i marked visited |
| Rules.TryValsSkip | src/main/java/de/budde/sudoku/RuleMachine.java:117 | a constant that is not a candidate is passed over |
| Rules.TryValsCloneFails | src/main/java/de/budde/sudoku/RuleMachine.java:118 | a failing clone ends the loop with its error, not caught |
| Rules.TryValsSolved | src/main/java/de/budde/sudoku/RuleMachine.java:120-131 | a successful trial ends the loop with its result |
| Rules.TryValsCaught | src/main/java/de/budde/sudoku/RuleMachine.java:132-135 | a failed trial adds the clone's counter to the board's and the loop goes on with the next candidate |
| Rules.TryValsTries | src/main/java/de/budde/sudoku/RuleMachine.java:118-135 | a candidate whose clone is c continues with the trial on c |
| Rules.AfterTrialCaught | src/main/java/de/budde/sudoku/RuleMachine.java:132-135 | the catch block charges the clone's counter and continues |
| Rules.Attempt | src/main/java/de/budde/sudoku/RuleMachine.java:120-131 | a trial only adds visited marks and keeps its clone a good board |
| Rules.Finish | src/main/java/de/budde/sudoku/RuleMachine.java:126-131 | the end of a trial only adds visited marks |
| Rules.BacktrackSolves | src/main/java/de/budde/sudoku/RuleMachine.java:111-142 | a board the backtracker returns is valid, has all 81 cells decided, and descends from the board it started from |
| Rules.TryValsSolves | src/main/java/de/budde/sudoku/RuleMachine.java:117-136 | the same for the candidate loop |
| Rules.AttemptSolves | src/main/java/de/budde/sudoku/RuleMachine.java:120-131 | the same for one trial, relative to its clone |
| Rules.FinishSolves | src/main/java/de/budde/sudoku/RuleMachine.java:126-131 | the same for the end of a trial |
| Rules.Verified | src/main/java/de/budde/sudoku/RunSudoku.java:31 | the closing valid passes exactly on a valid board, which it returns |
| Rules.VerifiedAfterExcluded | src/main/java/de/budde/sudoku/RunSudoku.java:26-31 | after a completed rule 'E' the closing valid always passes and returns the board |
| Rules.PipelineSolves | src/main/java/de/budde/sudoku/RunSudoku.java:25-31 | a run that ends normally returns a valid board with every cell decided, descended from the board it started from |
| Rules.PipelineRestSolves | src/main/java/de/budde/sudoku/RunSudoku.java:27-31 | the same from rule 'E' on |
| Rules.SearchSolves | src/main/java/de/budde/sudoku/RunSudoku.java:29-31 | the same for the backtracker step |
| RuleMachine.RuleOneValLeftSingleStep | src/main/java/de/budde/sudoku/RuleMachine.java:52-62 | the board and outcome are those OneValPass gives |
| RuleMachine.PendingQueries | src/main/java/de/budde/sudoku/RuleMachine.java:55-56 | the cell queries of the pass read Pending and TheVal off the model |
| RuleMachine.RuleOneValLeft | src/main/java/de/budde/sudoku/RuleMachine.java:30-41 | the board and outcome are those OneValLeft gives |
| RuleMachine.FirstExcludedVal | src/main/java/de/budde/sudoku/RuleMachine.java:80-88 | the candidate found is FirstExcluded of the cell |
| RuleMachine.RuleExcludedValPass | src/main/java/de/budde/sudoku/RuleMachine.java:77-90 | board, outcome and success flag are those ExclPass gives |
| RuleMachine.RuleExcludedVal | src/main/java/de/budde/sudoku/RuleMachine.java:74-98 | the board and outcome are those ExcludedVal gives |
| RuleMachine.PickCell | src/main/java/de/budde/sudoku/RuleMachine.java:151-188 | the cell picked is Pick of the board and marks, and exactly that cell gets marked |
| RuleMachine.LastEligibleCell | src/main/java/de/budde/sudoku/RuleMachine.java:153-161 | the first loop finds LastEligible of the board and marks, -1 standing for none |
| RuleMachine.FewestCandidates | src/main/java/de/budde/sudoku/RuleMachine.java:162-184 | the second loop, from the last eligible cell, finds the cell ScanMin chooses |
| RuleMachine.RuleBacktracker | src/main/java/de/budde/sudoku/RuleMachine.java:111-142 | board, marks, result and error are those Backtrack gives; a result is a fresh board |
| RuleMachine.TryCandidates | src/main/java/de/budde/sudoku/RuleMachine.java:117-138 | board, marks, result and error are those TryVals gives from the first constant |
| RuleMachine.TryCandidate | src/main/java/de/budde/sudoku/RuleMachine.java:118-135 | one candidate: either the loop ends as TryVals says, or it continues from the next candidate with the charged counter |
| RuleMachine.TrialOnClone | src/main/java/de/budde/sudoku/RuleMachine.java:120-135 | the try and catch blocks: the loop ends or continues as AfterTrial says |
| RuleMachine.RunTrial | src/main/java/de/budde/sudoku/RuleMachine.java:122-131 | the clone, the marks and the result are those Attempt gives |
| RuleMachine.FinishTrial | src/main/java/de/budde/sudoku/RuleMachine.java:126-131 | the clone, the marks and the result are those Finish gives |
| RuleMachine.Run | src/main/java/de/budde/sudoku/RunSudoku.java:25-31 | the board returned and the failure are those Pipeline gives |
| RuleMachine.RunRest | src/main/java/de/budde/sudoku/RunSudoku.java:26-31 | the same from rule 'E' on (PipelineRest) |
| RuleMachine.RunSearch | src/main/java/de/budde/sudoku/RunSudoku.java:28-31 | the backtracker on a new all-false mark array, then valid (Search) |
| RuleMachine.FinalValid | src/main/java/de/budde/sudoku/RunSudoku.java:31 | the closing valid hands the board back exactly when it is valid, else reports Verified's error |
| Do.CharsValidFrom | src/main/java/de/budde/sudoku/Do.java:11 | the character class matches from position k to the end exactly when every character there is a digit 1..9, a blank or a dot |
| Do.Check | src/main/java/de/budde/sudoku/Do.java:114-120 | check passes exactly on 81 valid characters; a wrong length fails with InvalidSize, a bad character with InvalidChars |
| Do.ZeroRefused | src/main/java/de/budde/sudoku/Do.java:11 | a '0' in a string of the right length is refused for its characters |
| Do.DigitRoundTrip | src/main/java/de/budde/sudoku/Do.java:30-31 | a digit read as a constant prints as that digit again |
| Do.Puzzle | src/main/java/de/budde/sudoku/Do.java:22-35 | the cells of an accepted string are well-formed |
| Do.PuzzleCells | src/main/java/de/budde/sudoku/Do.java:25-33 | cell i sits at index i; a digit is a clue decided at step 0 by 'I' printing as that digit; a blank or dot is open with all nine candidates |
| Do.String2Cells | src/main/java/de/budde/sudoku/Do.java:22-35 | fails exactly when check does, with its error; otherwise a fresh array of fresh cells holding Puzzle of the string |
| Do.OpenCells | src/main/java/de/budde/sudoku/Do.java:24-27 | 81 fresh undecided cells, cell i at index i with all nine candidates |
| Do.SetClues | src/main/java/de/budde/sudoku/Do.java:28-33 | every digit turns its cell into a clue; other cells stay open |
| Do.OpenPuzzleBuilds | src/main/java/de/budde/sudoku/Do.java:114-120 | a string of blanks and dots is accepted and builds a board of its own cells |
| Do.Load | src/main/java/de/budde/sudoku/RunSudoku.java:22 | new State(string2cells(s)) succeeds and fails as Built says, and returns a fresh board |
| RunSudoku.SolutionFillsPuzzle | src/main/java/de/budde/sudoku/RunSudoku.java:20-37 | a run that ends normally had an accepted string and returns a valid board whose every cell is decided with one candidate and whose every clue keeps its value |
| RunSudoku.SolvedFilled | src/main/java/de/budde/sudoku/RunSudoku.java:31 | a solved board has every cell decided with exactly one candidate |
| RunSudoku.CluesKept | src/main/java/de/budde/sudoku/Do.java:30-32 | cells evolved from the puzzle down to one candidate still hold the clues |
| RunSudoku.Run | src/main/java/de/budde/sudoku/RunSudoku.java:20-37 | the board returned and the failure are those SolveText gives |

The model follows the code in these points, some of which the code's own
comments and names describe differently:

- The rules tag their cells 'O' and 'E', and clues 'I'.
- `run` applies only one pass of rule 'O' (`ruleOneValLeftSingleStep`) before
  rule 'E'.
- `pickCell` starts from the LAST eligible cell. It keeps that cell when it has
  at most two candidates. Otherwise it scans from the first cell, replaces the
  choice only by a cell with strictly fewer candidates, and stops at the first
  replacement with at most two (`Rules.Pick`, `Rules.PickPrefersLast`). The
  comment on `pickCell` (RuleMachine.java:145) promises the cell with the least
  number of possible values, but a last eligible cell with two candidates is
  kept even when another has one, and among equally small cells the choice is
  not the first-occurring one.
- `setFinalVal` treats a decision as a second one only when the recorded step is
  greater than 0, although its message speaks of any "second time"
  (Cell.java:97-98). A clue (step 0) can therefore be decided again for its own
  value (`Cells.DecideOnce`).
- `valid` compares the values of single-valued cells, decided or not.
- A failed trial of the backtracker adds the clone's whole counter, including
  the steps the clone inherited, to the board's counter.

## Left out

- Logging (`Do.logStartRule`, `logEndRule`, `logI`, `logRule`, `addIndentation`),
  the `recDepth` parameters, `State.toString`, `addCellInfo`, `Cell.toString`
  and `toXY`: output only.
- The timing of `RunSudoku.run`, `showState`, and `Main`: clock and console I/O.
- The getters `getCells`, `getSteps`, `getIdx`, `getPossibleVals`, `getStep` and
  `getRuleId`: field reads, used directly.
- A `null` string for `check`: Dafny strings cannot be null. A null cell array
  for the State constructor is modelled (`States.State.Create` takes an
  `array?`).
- The regular expression of `VALIDCHARS`: modelled as a scan over the characters
  (`Do.CharsValidFrom`).
- The `BigInteger` step counters are unbounded `int`s, so nothing wraps.
- The constructor's unassigned counter: in Java it is null until the end of
  construction and is never read before then.
- The `while` loop of `ruleBacktracker` runs its body at most once, because the
  body always returns or throws. `RuleMachine.RuleBacktracker` has no loop.
- `Do.OpenCells` fills the new array with one placeholder cell where Java has
  nulls; the loop then replaces every entry.
- States.State.SetFinalCellVal: takes the cell's index instead of the Cell
  object, and requires it to be 0..80. The rules always pass a cell of the same
  board.
- States.State.IncrSteps: requires `attempts >= 0`. The backtracker, its only
  caller, passes a clone's counter, which is never negative.
- States.State.Create: requires the cells to sit at their own indices and to be
  consistent (`CellsOk`), as `string2cells` and `clone` make them. Java accepts
  any 81 cells.
- States.State.ValImpossibleInAtLeastOneNeighborhood: the DBC check that `v` is
  a candidate is a precondition. Rule 'E' asks only about candidates.
- States.State.RemoveValueFromNeighborHood: the DBC check that the group has 9
  entries is a precondition (`IsGroup`). Every group has 9 entries.
- States.State.IsValImpossibleInNeighborhood: requires a group of 9 indices
  (`IsGroup`).
- Cells.Cell.Clone: requires the cell invariant (a decided cell has at most one
  candidate), which every Cell the class can produce satisfies.
- Cells.Cell.SetFinalVal: requires the same cell invariant.
- Cells.Cell.RemoveFromSetOfPossibleValues: requires the same cell invariant.
- RuleMachine.RuleBacktracker: requires the mark array not to be one of the
  board's cells. The array is always a separate `boolean[81]`.
- RuleMachine.TryCandidates: the same requirement on the mark array.
- RuleMachine.TryCandidate: the same requirement on the mark array.
- RuleMachine.TrialOnClone: the same requirement, and that the clone shares no
  object with the board, as `clone` guarantees.
- RuleMachine.RunTrial: the same requirement on the mark array.
- RuleMachine.FinishTrial: the same requirement on the mark array.
- The second `valid()` of `clone` and the closing `valid()` of `run` after rule
  'E' are modelled, and are proved never to fail (`Grids.CloneSnapConstruct`,
  `Rules.VerifiedAfterExcluded`).
- Do.Check: the length of the string is counted in Unicode characters, while
  Java's `length()` counts UTF-16 units. A string with a character outside the
  Basic Multilingual Plane can therefore fail with the other error kind
  (InvalidSize instead of InvalidChars, or the reverse).
