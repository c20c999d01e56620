/**
 * One grid position (Cell.java): its index, its mutable set of candidate
 * values, the step at which its value was decided (-1 while undecided) and the
 * tag of the rule that decided it ('?' while undecided, 'I' for a clue).
 */
module Cells {
  import opened Dbc
  import opened Vals

  /** Java's int division and remainder, which truncate toward zero. */
  function Quot(a: int, b: int): int
    requires b > 0
  {
    if a >= 0 then a / b else -((-a) / b)
  }

  function Rem(a: int, b: int): int
    requires b > 0
  {
    a - b * Quot(a, b)
  }

  /** The value held by a Cell object at one moment. */
  datatype CellV = CellV(idx: int, vals: set<Val>, step: int, rule: char)
  {
    /** isFinalValueSet: a step was recorded. */
    predicate IsFinalValueSet() { step >= 0 }

    /** isOnlyOneValLeft: exactly one candidate remains. */
    predicate IsOnlyOneValLeft() { |vals| == 1 }

    /** What every Cell the class can produce satisfies: a decided cell has at most one candidate. */
    predicate Consistent() { step >= 0 ==> |vals| <= 1 }
  }

  /** The first constant in declaration order, from position k on, that lies in s. */
  function FirstFrom(s: set<Val>, k: nat): (r: Option<Val>)
    requires k <= 9
    ensures r.Some? ==> r.value in s && k <= r.value.N() - 1
    ensures r.Some? ==> forall v :: v in s && k <= v.N() - 1 ==> r.value.N() <= v.N()
    ensures r.None? ==> forall v :: v in s ==> v.N() - 1 < k
    decreases 9 - k
  {
    ValuesNumbered();
    if k == 9 then None
    else if Values[k] in s then Some(Values[k])
    else FirstFrom(s, k + 1)
  }

  /** A set with one member is the singleton of its first member in declaration order. */
  lemma FirstOfSingleton(s: set<Val>)
    requires |s| == 1
    ensures FirstFrom(s, 0).Some? && s == {FirstFrom(s, 0).value}
  {
    var w :| w in s;
    assert 1 <= w.N() <= 9 by { ValuesNumbered(); }
    var v := FirstFrom(s, 0).value;
    assert |s - {v}| == 0;
  }

  /** getTheFinalVal: the only candidate, read as the first one the set's iterator yields. */
  function TheVal(s: set<Val>): (r: Result<Val>)
    ensures r.Ok? <==> |s| == 1
    ensures r.Ok? ==> s == {r.value}
    ensures r.Fail? ==> r.error == NotSingleValued
  {
    if |s| != 1 then Fail(NotSingleValued)
    else
      FirstOfSingleton(s);
      Ok(FirstFrom(s, 0).value)
  }

  /**
   * The effect of setFinalVal on a cell value: the "second time" guard fires
   * only for a step strictly greater than 0, then the value must be a candidate.
   */
  function DecideCell(c: CellV, v: Val, s: int, rule: char): (r: Result<CellV>)
    ensures r.Ok? <==> c.step <= 0 && v in c.vals
    ensures r.Fail? ==> (r.error == SecondTime <==> c.step > 0) && (r.error == SecondTime || r.error == Impossible)
    ensures r.Ok? ==> r.value.vals == {v} && r.value.vals <= c.vals
    ensures r.Ok? ==> r.value.idx == c.idx && r.value.step == s && r.value.rule == rule
  {
    if c.step > 0 then Fail(SecondTime)
    else if v !in c.vals then Fail(Impossible)
    else Ok(CellV(c.idx, {v}, s, rule))
  }

  /**
   * Decide once: a cell decided at a step greater than 0 refuses every further
   * decision with the "second time" error, whereas a clue (decided at step 0)
   * accepts a second decision for its own value.
   */
  lemma {:induction false} DecideOnce(c: CellV, v: Val, s: int, rule: char, w: Val, s': int, rule': char)
    requires DecideCell(c, v, s, rule).Ok?
    ensures s > 0 ==> DecideCell(DecideCell(c, v, s, rule).value, w, s', rule') == Fail(SecondTime)
    ensures s == 0 ==> (DecideCell(DecideCell(c, v, s, rule).value, w, s', rule').Ok? <==> w == v)
  {
  }

  /** A successful decision keeps a cell consistent and finalizes it when the step is not negative. */
  lemma DecideConsistent(c: CellV, v: Val, s: int, rule: char)
    requires DecideCell(c, v, s, rule).Ok?
    ensures DecideCell(c, v, s, rule).value.Consistent()
    ensures DecideCell(c, v, s, rule).value.IsOnlyOneValLeft()
    ensures s >= 0 <==> DecideCell(c, v, s, rule).value.IsFinalValueSet()
  {
  }

  class Cell {
    const idx: int
    var possibleVals: set<Val>
    var step: int
    var ruleId: char

    /** The value this object holds. */
    function Value(): CellV
      reads this
    {
      CellV(idx, possibleVals, step, ruleId)
    }

    ghost predicate Valid()
      reads this
    {
      Value().Consistent()
    }

    /** A new, undecided cell with the given candidates. */
    constructor (idx: int, possibleVals: set<Val>)
      ensures Valid() && Value() == CellV(idx, possibleVals, -1, '?')
      ensures !Value().IsFinalValueSet()
    {
      this.idx := idx;
      this.possibleVals := possibleVals;
      this.step := -1;
      this.ruleId := '?';
    }

    /** A deep copy: a fresh object with the same value; the candidate set is a value, so nothing is shared. */
    method Clone() returns (c: Cell)
      requires Valid()
      ensures fresh(c) && c.Valid() && c.Value() == Value()
    {
      c := new Cell(idx, possibleVals);
      c.step := step;
      c.ruleId := ruleId;
    }

    /** setInitVal: a clue; its only candidate is v, decided at step 0 by rule 'I'. */
    method SetInitVal(v: Val)
      modifies this
      ensures Valid() && Value() == CellV(idx, {v}, 0, 'I')
    {
      possibleVals := {v};
      step := 0;
      ruleId := 'I';
    }

    /** setFinalVal: decide v at step s by the rule tagged r; on failure nothing changes. */
    method SetFinalVal(v: Val, s: int, r: char) returns (o: Outcome)
      requires Valid()
      modifies this
      ensures Valid()
      ensures o.Pass? <==> DecideCell(old(Value()), v, s, r).Ok?
      ensures o.Pass? ==> Value() == DecideCell(old(Value()), v, s, r).value
      ensures o.Failed? ==> Value() == old(Value()) && o.error == DecideCell(old(Value()), v, s, r).error
    {
      if step > 0 {
        o := Failed(SecondTime);
      } else if v in possibleVals {
        possibleVals := {v};
        step := s;
        ruleId := r;
        o := Pass;
      } else {
        o := Failed(Impossible);
      }
    }

    /** removeFromSetOfPossibleValues: drop v if present; step and tag stay. */
    method RemoveFromSetOfPossibleValues(v: Val)
      requires Valid()
      modifies this
      ensures Valid()
      ensures Value() == old(Value()).(vals := old(possibleVals) - {v})
    {
      possibleVals := possibleVals - {v};
    }

    predicate IsValPossible(v: Val)
      reads this
    {
      v in possibleVals
    }

    predicate IsOnlyOneValLeft()
      reads this
    {
      Value().IsOnlyOneValLeft()
    }

    predicate IsFinalValueSet()
      reads this
    {
      Value().IsFinalValueSet()
    }

    function GetTheFinalVal(): Result<Val>
      reads this
    {
      TheVal(possibleVals)
    }

    /** getX: the 1-based column. */
    function GetX(): int
    {
      Rem(idx, 9) + 1
    }

    /** getY: the 1-based row. */
    function GetY(): int
    {
      Quot(idx, 9) + 1
    }
  }

  /** xy2idx: the index of the cell in column x and row y, both 1-based. */
  function Xy2Idx(x: int, y: int): int
  {
    x + 9 * y - 10
  }

  /** idx2xy: the 1-based (column, row) of an index. */
  function Idx2Xy(idx: int): (int, int)
  {
    (Rem(idx, 9) + 1, Quot(idx, 9) + 1)
  }

  /** For every index of the grid, idx2xy gives coordinates in 1..9 and xy2idx maps them back. */
  lemma IndexRoundTrip(idx: int)
    requires 0 <= idx < 81
    ensures 1 <= Idx2Xy(idx).0 <= 9 && 1 <= Idx2Xy(idx).1 <= 9
    ensures Idx2Xy(idx) == (idx % 9 + 1, idx / 9 + 1)
    ensures Xy2Idx(Idx2Xy(idx).0, Idx2Xy(idx).1) == idx
  {
  }

  /** For every pair of coordinates in 1..9, xy2idx gives an index of the grid and idx2xy maps it back. */
  lemma CoordinateRoundTrip(x: int, y: int)
    requires 1 <= x <= 9 && 1 <= y <= 9
    ensures 0 <= Xy2Idx(x, y) < 81
    ensures Idx2Xy(Xy2Idx(x, y)) == (x, y)
  {
    var i := Xy2Idx(x, y);
    assert i == (x - 1) + 9 * (y - 1);
  }

  /** A cell's getX and getY are the coordinates idx2xy gives for its index. */
  lemma CellCoordinates(c: Cell)
    requires 0 <= c.idx < 81
    ensures (c.GetX(), c.GetY()) == Idx2Xy(c.idx)
    ensures 1 <= c.GetX() <= 9 && 1 <= c.GetY() <= 9
  {
    IndexRoundTrip(c.idx);
  }

  /** A single-valued set answers getTheFinalVal with its member; a set of any other size fails. */
  lemma TheValOfSingleton(v: Val, s: set<Val>)
    ensures TheVal({v}) == Ok(v)
    ensures |s| != 1 ==> TheVal(s) == Fail(NotSingleValued)
  {
    assert |{v}| == 1;
  }
}
