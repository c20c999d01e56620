/**
 * Do.java, the parser part: check accepts exactly the strings of 81 characters
 * drawn from '1'..'9', ' ' and '.', and string2cells turns such a string into
 * the 81 cells of a puzzle, a digit becoming a clue and anything else an open
 * cell with all nine candidates.
 */
module Do {
  import opened Dbc
  import opened Vals
  import opened Cells
  import opened Grids
  import opened States

  /** A character of the class VALIDCHARS admits: a digit 1..9, a blank or a dot. */
  predicate ValidChar(c: char)
  {
    '1' <= c <= '9' || c == ' ' || c == '.'
  }

  /** The character class of VALIDCHARS, matched from position k to the end. */
  function CharsValidFrom(s: string, k: nat): (b: bool)
    requires k <= |s|
    ensures b <==> forall j :: k <= j < |s| ==> ValidChar(s[j])
    decreases |s| - k
  {
    k == |s| || (ValidChar(s[k]) && CharsValidFrom(s, k + 1))
  }

  /** check: the length is tested first, then the characters. */
  function Check(s: string): (r: Outcome)
    ensures r.Pass? <==> |s| == 81 && forall j :: 0 <= j < |s| ==> ValidChar(s[j])
    ensures r.Failed? && |s| != 81 ==> r.error == InvalidSize
    ensures r.Failed? && |s| == 81 ==> r.error == InvalidChars && exists j :: 0 <= j < 81 && !ValidChar(s[j])
  {
    if |s| != 81 then Failed(InvalidSize)
    else if !CharsValidFrom(s, 0) then Failed(InvalidChars)
    else Pass
  }

  /** A string of the right length with a '0' in it is refused for its characters. */
  lemma ZeroRefused(s: string, j: int)
    requires |s| == 81 && 0 <= j < 81 && s[j] == '0'
    ensures Check(s) == Failed(InvalidChars)
  {
    assert !ValidChar(s[j]);
  }

  /** A digit read as a constant prints as that digit again. */
  lemma DigitRoundTrip(c: char)
    requires '1' <= c <= '9'
    ensures OfChar(c).Ok? && ToString(OfChar(c).value) == [c]
  {
    OfCharDigits(c);
    assert ('0' as int + OfChar(c).value.N()) as char == c;
  }

  /** The cell string2cells leaves at index i for the character c. */
  function CellOf(c: char, i: int): CellV
  {
    if '1' <= c <= '9' then
      OfCharDigits(c);
      CellV(i, {OfChar(c).value}, 0, 'I')
    else CellV(i, AllVals, -1, '?')
  }

  /** The cells string2cells returns for an accepted string, as values. */
  function Puzzle(s: string): (g: Grid)
    requires Check(s).Pass?
    ensures WellFormed(g)
  {
    seq(81, i requires 0 <= i < 81 => CellOf(s[i], i))
  }

  /**
   * What the puzzle means: cell i sits at index i; a digit is a clue decided at
   * step 0 by rule 'I' whose only candidate prints as that digit; a blank or a
   * dot is an open cell with all nine candidates.
   */
  lemma PuzzleCells(s: string, i: int)
    requires Check(s).Pass? && 0 <= i < 81
    ensures Puzzle(s)[i].idx == i
    ensures '1' <= s[i] <= '9' ==>
      exists v :: Puzzle(s)[i] == CellV(i, {v}, 0, 'I') && ToString(v) == [s[i]]
    ensures !('1' <= s[i] <= '9') ==>
      (s[i] == ' ' || s[i] == '.') && Puzzle(s)[i] == CellV(i, AllVals, -1, '?')
  {
    if '1' <= s[i] <= '9' {
      DigitRoundTrip(s[i]);
      var v := OfChar(s[i]).value;
      assert Puzzle(s)[i] == CellV(i, {v}, 0, 'I');
    }
  }

  /**
   * string2cells: check the string, make 81 open cells with all nine candidates,
   * then turn every digit into a clue.
   */
  method String2Cells(s: string) returns (r: Result<array<Cell>>)
    ensures r.Fail? <==> Check(s).Failed?
    ensures r.Fail? ==> r.error == Check(s).error
    ensures r.Ok? ==>
      Check(s).Pass? && fresh(r.value) && fresh(CellObjects(r.value)) &&
      CellsOk(r.value) && GridOf(r.value) == Puzzle(s)
  {
    var o := Check(s);
    if o.Failed? {
      return Fail(o.error);
    }
    var cells := OpenCells();
    SetClues(s, cells);
    assert CellsOk(cells);
    assert GridOf(cells) == Puzzle(s);
    return Ok(cells);
  }

  /** The first loop of string2cells: cell i is new, with index i and all nine candidates. */
  method OpenCells() returns (cells: array<Cell>)
    ensures fresh(cells) && cells.Length == 81
    ensures forall k :: 0 <= k < 81 ==> fresh(cells[k]) && cells[k].Value() == CellV(k, AllVals, -1, '?')
  {
    // The array starts out filled with one placeholder cell where Java has nulls;
    // the loop replaces every entry.
    var placeholder := new Cell(0, AllVals);
    cells := new Cell[81](_ => placeholder);
    for i := 0 to 81
      invariant forall k :: 0 <= k < i ==> fresh(cells[k]) && cells[k].Value() == CellV(k, AllVals, -1, '?')
    {
      cells[i] := new Cell(i, AllVals);
    }
  }

  /** The second loop of string2cells: every digit of s becomes the clue of its cell. */
  method SetClues(s: string, cells: array<Cell>)
    requires |s| == 81 && cells.Length == 81
    requires forall k :: 0 <= k < 81 ==> cells[k].Value() == CellV(k, AllVals, -1, '?')
    modifies CellObjects(cells)
    ensures forall k :: 0 <= k < 81 ==> cells[k].Value() == CellOf(s[k], k)
  {
    for i := 0 to 81
      invariant forall k :: 0 <= k < i ==> cells[k].Value() == CellOf(s[k], k)
      invariant forall k :: i <= k < 81 ==> cells[k].Value() == CellV(k, AllVals, -1, '?')
    {
      var c := s[i];
      if '1' <= c <= '9' {
        OfCharDigits(c);
        cells[i].SetInitVal(OfChar(c).value);
      }
    }
  }

  /**
   * A puzzle of blanks and dots only is accepted, and its cells build a State
   * without error: nothing to propagate, and the grid is valid.
   */
  lemma OpenPuzzleBuilds(s: string)
    requires |s| == 81 && forall i :: 0 <= i < 81 ==> s[i] == '.' || s[i] == ' '
    ensures Check(s).Pass?
    ensures Construct(Puzzle(s)) == Ok(Snap(Puzzle(s), 0))
  {
    assert Check(s).Pass?;
    EmptyPuzzleBuilds(Puzzle(s));
  }

  /** new State(string2cells(s)) on values: the string is checked, then its cells are constructed. */
  function Built(s: string): Result<Snap>
  {
    if Check(s).Failed? then Fail(Check(s).error) else Construct(Puzzle(s))
  }

  /**
   * new State(string2cells(s)): the parsed cells handed to the State
   * constructor. A refused string or a refused set of clues is a failure.
   */
  method Load(s: string) returns (r: Result<State>)
    ensures r.Ok? <==> Built(s).Ok?
    ensures r.Fail? ==> r.error == Built(s).error
    ensures r.Ok? ==> fresh(r.value) && fresh(r.value.Repr) && r.value.Valid() && r.value.Snapshot() == Built(s).value
  {
    var made := String2Cells(s);
    if made.Fail? {
      return Fail(made.error);
    }
    r := State.Create(made.value);
  }
}
