/**
 * The fixed topology of the grid (Structure.java): 9 rows, 9 columns and 9
 * 3x3 blocks, each a group of 9 cell indices, and the map from every index to
 * its (row, column, block) groups.
 */
module Structure {
  import opened Cells

  /** The copy inc makes of a group: every index moved by incr. */
  function Shifted(a: seq<int>, incr: int): seq<int>
  {
    seq(|a|, i requires 0 <= i < |a| => a[i] + incr)
  }

  /** inc: a new 9-element array holding the first 9 entries of a, each moved by incr; a is left alone. */
  method Inc(a: array<int>, incr: int) returns (r: array<int>)
    requires a.Length >= 9
    ensures fresh(r) && r.Length == 9
    ensures r[..] == Shifted(a[..9], incr)
  {
    r := new int[9];
    for i := 0 to 9
      invariant forall k :: 0 <= k < i ==> r[k] == a[k] + incr
    {
      r[i] := a[i] + incr;
    }
  }

  /** ia: an array holding the given entries. */
  method Ia(s: seq<int>) returns (r: array<int>)
    ensures fresh(r) && r[..] == s
  {
    r := new int[|s|](i requires 0 <= i < |s| => s[i]);
  }

  /** The k-th entry (0-based) of row r, column c and block b. */
  function RowCell(r: int, k: int): int { 9 * r + k }
  function ColCell(c: int, k: int): int { c + 9 * k }
  function BlockCell(b: int, k: int): int { 27 * (b / 3) + 3 * (b % 3) + 9 * (k / 3) + k % 3 }

  /** The rows top down, the columns left to right, the blocks left to right and top down. */
  function Rows(): seq<seq<int>> { seq(9, r => seq(9, k => RowCell(r, k))) }
  function Columns(): seq<seq<int>> { seq(9, c => seq(9, k => ColCell(c, k))) }
  function Blocks(): seq<seq<int>> { seq(9, b => seq(9, k => BlockCell(b, k))) }

  /** ALL_H, ALL_V and ALL_B. */
  const AllH: seq<seq<int>> := Rows()
  const AllV: seq<seq<int>> := Columns()
  const AllB: seq<seq<int>> := Blocks()

  /** ALL_NEIGHBARHOODS: the 9 rows, then the 9 columns, then the 9 blocks. */
  const AllNeighborhoods: seq<seq<int>> := AllH + AllV + AllB

  /** The first row, column and block, which the initializer writes out literally. */
  const H1: seq<int> := [0, 1, 2, 3, 4, 5, 6, 7, 8]
  const V1: seq<int> := [0, 9, 18, 27, 36, 45, 54, 63, 72]
  const B1: seq<int> := [0, 1, 2, 9, 10, 11, 18, 19, 20]

  /** Each row is the previous one moved by 9, starting from H1. */
  lemma RowsFollowInitializer()
    ensures AllH[0] == H1
    ensures forall r :: 1 <= r < 9 ==> AllH[r] == Shifted(AllH[r - 1], 9)
  {
    forall r | 1 <= r < 9
      ensures AllH[r] == Shifted(AllH[r - 1], 9)
    {
      assert forall k :: 0 <= k < 9 ==> AllH[r][k] == AllH[r - 1][k] + 9;
    }
  }

  /** Each column is the previous one moved by 1, starting from V1. */
  lemma ColumnsFollowInitializer()
    ensures AllV[0] == V1
    ensures forall c :: 1 <= c < 9 ==> AllV[c] == Shifted(AllV[c - 1], 1)
  {
    forall c | 1 <= c < 9
      ensures AllV[c] == Shifted(AllV[c - 1], 1)
    {
      assert forall k :: 0 <= k < 9 ==> AllV[c][k] == AllV[c - 1][k] + 1;
    }
  }

  /** The blocks are B1 moved by 3 within a band, and by 27 and 54 to start the second and third band. */
  lemma BlocksFollowInitializer()
    ensures AllB[0] == B1
    ensures forall b :: 1 <= b < 9 && b % 3 != 0 ==> AllB[b] == Shifted(AllB[b - 1], 3)
    ensures AllB[3] == Shifted(AllB[0], 27) && AllB[6] == Shifted(AllB[0], 54)
  {
    forall k | 0 <= k < 9
      ensures AllB[0][k] == B1[k]
    {
      if k < 3 {} else if k < 6 {} else {}
    }
    forall b | 1 <= b < 9 && b % 3 != 0
      ensures AllB[b] == Shifted(AllB[b - 1], 3)
    {
      BlockStep(b, b - 1, 3);
    }
    BlockStep(3, 0, 27);
    BlockStep(6, 0, 54);
  }

  /** Entry k of block b, read through the table. */
  lemma BlockAt(b: int, k: int)
    requires 0 <= b < 9 && 0 <= k < 9
    ensures |AllB| == 9 && |AllB[b]| == 9 && AllB[b][k] == BlockCell(b, k)
  {
  }

  lemma BlockStepAt(b: int, a: int, d: int, k: int)
    requires 0 <= a < b < 9 && 0 <= k < 9
    requires 27 * (b / 3) + 3 * (b % 3) == 27 * (a / 3) + 3 * (a % 3) + d
    ensures AllB[b][k] == AllB[a][k] + d
  {
    BlockAt(b, k);
    BlockAt(a, k);
  }

  /** Block b is block a moved by d, whenever the block arithmetic says so. */
  lemma BlockStep(b: int, a: int, d: int)
    requires 0 <= a < b < 9
    requires 27 * (b / 3) + 3 * (b % 3) == 27 * (a / 3) + 3 * (a % 3) + d
    ensures AllB[b] == Shifted(AllB[a], d)
  {
    BlockAt(b, 0);
    BlockAt(a, 0);
    forall k | 0 <= k < 9
      ensures AllB[b][k] == Shifted(AllB[a], d)[k]
    {
      BlockStepAt(b, a, d, k);
    }
  }

  /** The field initializers of H1..H9: H1 written out, every later row made by inc from the one before. */
  method BuildRows() returns (allH: seq<seq<int>>)
    ensures allH == AllH
  {
    RowsFollowInitializer();
    var h1 := Ia(H1);
    var g1 := h1[..];
    assert g1 == AllH[0];
    var h2 := Inc(h1, 9);
    var g2 := h2[..];
    assert h1[..9] == g1;
    assert g2 == AllH[1];
    var h3 := Inc(h2, 9);
    var g3 := h3[..];
    assert h2[..9] == g2;
    assert g3 == AllH[2];
    var h4 := Inc(h3, 9);
    var g4 := h4[..];
    assert h3[..9] == g3;
    assert g4 == AllH[3];
    var h5 := Inc(h4, 9);
    var g5 := h5[..];
    assert h4[..9] == g4;
    assert g5 == AllH[4];
    var h6 := Inc(h5, 9);
    var g6 := h6[..];
    assert h5[..9] == g5;
    assert g6 == AllH[5];
    var h7 := Inc(h6, 9);
    var g7 := h7[..];
    assert h6[..9] == g6;
    assert g7 == AllH[6];
    var h8 := Inc(h7, 9);
    var g8 := h8[..];
    assert h7[..9] == g7;
    assert g8 == AllH[7];
    var h9 := Inc(h8, 9);
    var g9 := h9[..];
    assert h8[..9] == g8;
    assert g9 == AllH[8];
    allH := [g1, g2, g3, g4, g5, g6, g7, g8, g9];
  }

  /** The field initializers of V1..V9: V1 written out, every later column made by inc from the one before. */
  method BuildColumns() returns (allV: seq<seq<int>>)
    ensures allV == AllV
  {
    ColumnsFollowInitializer();
    var v1 := Ia(V1);
    var g1 := v1[..];
    assert g1 == AllV[0];
    var v2 := Inc(v1, 1);
    var g2 := v2[..];
    assert v1[..9] == g1;
    assert g2 == AllV[1];
    var v3 := Inc(v2, 1);
    var g3 := v3[..];
    assert v2[..9] == g2;
    assert g3 == AllV[2];
    var v4 := Inc(v3, 1);
    var g4 := v4[..];
    assert v3[..9] == g3;
    assert g4 == AllV[3];
    var v5 := Inc(v4, 1);
    var g5 := v5[..];
    assert v4[..9] == g4;
    assert g5 == AllV[4];
    var v6 := Inc(v5, 1);
    var g6 := v6[..];
    assert v5[..9] == g5;
    assert g6 == AllV[5];
    var v7 := Inc(v6, 1);
    var g7 := v7[..];
    assert v6[..9] == g6;
    assert g7 == AllV[6];
    var v8 := Inc(v7, 1);
    var g8 := v8[..];
    assert v7[..9] == g7;
    assert g8 == AllV[7];
    var v9 := Inc(v8, 1);
    var g9 := v9[..];
    assert v8[..9] == g8;
    assert g9 == AllV[8];
    allV := [g1, g2, g3, g4, g5, g6, g7, g8, g9];
  }

  /** The field initializers of B1..B9: B1 written out, B4 and B7 made from B1, the others from their left neighbour. */
  method BuildBlocks() returns (allB: seq<seq<int>>)
    ensures allB == AllB
  {
    BlocksFollowInitializer();
    var b1 := Ia(B1);
    var g1 := b1[..];
    assert g1 == AllB[0];
    var b2 := Inc(b1, 3);
    var g2 := b2[..];
    assert b1[..9] == g1;
    assert g2 == AllB[1];
    var b3 := Inc(b2, 3);
    var g3 := b3[..];
    assert b2[..9] == g2;
    assert g3 == AllB[2];
    var b4 := Inc(b1, 27);
    var g4 := b4[..];
    assert b1[..9] == g1;
    assert g4 == AllB[3];
    var b5 := Inc(b4, 3);
    var g5 := b5[..];
    assert b4[..9] == g4;
    assert g5 == AllB[4];
    var b6 := Inc(b5, 3);
    var g6 := b6[..];
    assert b5[..9] == g5;
    assert g6 == AllB[5];
    var b7 := Inc(b1, 54);
    var g7 := b7[..];
    assert b1[..9] == g1;
    assert g7 == AllB[6];
    var b8 := Inc(b7, 3);
    var g8 := b8[..];
    assert b7[..9] == g7;
    assert g8 == AllB[7];
    var b9 := Inc(b8, 3);
    var g9 := b9[..];
    assert b8[..9] == g8;
    assert g9 == AllB[8];
    allB := [g1, g2, g3, g4, g5, g6, g7, g8, g9];
  }

  /** NeighborHoodStream: the row, column and block of one cell, in that order. */
  datatype Neighborhoods = Neighborhoods(h: seq<int>, v: seq<int>, b: seq<int>)
  {
    /** get: the stream of the three groups, as a sequence. */
    function Get(): seq<seq<int>>
    {
      [h, v, b]
    }
  }

  /** The 0-based row, column and block of an index, by plain arithmetic. */
  function Row(i: int): (r: int)
    requires 0 <= i < 81
    ensures 0 <= r < 9
  {
    i / 9
  }

  function Col(i: int): (c: int)
    requires 0 <= i < 81
    ensures 0 <= c < 9
  {
    i % 9
  }

  function Block(i: int): (b: int)
    requires 0 <= i < 81
    ensures 0 <= b < 9
  {
    (i % 9) / 3 + 3 * ((i / 9) / 3)
  }

  /** xy2block: the 1-based coordinates of the top-left corner of the block holding (x, y). */
  function Xy2Block(x: int, y: int): (int, int)
  {
    (Quot(x - 1, 3) * 3 + 1, Quot(y - 1, 3) * 3 + 1)
  }

  /** The position in ALL_B that the static initializer computes from the corner of the block of (x, y). */
  function BlockNumber(x: int, y: int): int
  {
    var blockXy := Xy2Block(x, y);
    Quot(blockXy.0 - 1, 3) + blockXy.1 - 1
  }

  /** The initializer's block arithmetic: the corner of (x, y) names block (x-1)/3 + 3*((y-1)/3). */
  lemma BlockNumberRange(x: int, y: int)
    requires 1 <= x <= 9 && 1 <= y <= 9
    ensures BlockNumber(x, y) == (x - 1) / 3 + 3 * ((y - 1) / 3)
    ensures 0 <= BlockNumber(x, y) < 9
  {
    var q := (x - 1) / 3;
    var bx := q * 3 + 1;
    assert Xy2Block(x, y).0 == bx;
    assert Quot(bx - 1, 3) == q by { assert bx - 1 == 3 * q; }
  }

  /** The groups the static initializer looks up for the cell at 1-based coordinates (x, y). */
  function EntryAt(x: int, y: int): Neighborhoods
    requires 1 <= x <= 9 && 1 <= y <= 9
  {
    BlockNumberRange(x, y);
    Neighborhoods(AllH[y - 1], AllV[x - 1], AllB[BlockNumber(x, y)])
  }

  /** The entry the static initializer stores for index i (its coordinates come from idx2xy). */
  function MappingEntry(i: int): Neighborhoods
    requires 0 <= i < 81
  {
    IndexRoundTrip(i);
    EntryAt(Idx2Xy(i).0, Idx2Xy(i).1)
  }

  /** NEIGHBARHOOD_MAPPING, as the static initializer leaves it. */
  const NeighborhoodMapping: map<int, Neighborhoods> := map i | 0 <= i < 81 :: MappingEntry(i)

  /** The static initializer: one entry per index 0..80, filled in ascending order. */
  method BuildNeighborhoodMapping() returns (m: map<int, Neighborhoods>)
    ensures m == NeighborhoodMapping
  {
    m := map[];
    for i := 0 to 81
      invariant m == map j | 0 <= j < i :: MappingEntry(j)
    {
      m := m[i := MappingEntry(i)];
    }
  }

  /** getNeighborHood: the row idx/9, the column idx%9 and the block idx%9/3 + 3*(idx/9/3) of a cell index. */
  function GetNeighborHood(idx: int): (r: Neighborhoods)
    requires 0 <= idx < 81
    ensures r == Neighborhoods(AllH[Row(idx)], AllV[Col(idx)], AllB[Block(idx)])
  {
    NeighborhoodArithmetic(idx);
    NeighborhoodMapping[idx]
  }

  /** getAllNeighborhoods: 27 groups of 9 indices in 0..80, the rows, then the columns, then the blocks. */
  function GetAllNeighborhoods(): (r: seq<seq<int>>)
    ensures |r| == 27
    ensures forall n :: 0 <= n < 9 ==> r[n] == AllH[n] && r[n + 9] == AllV[n] && r[n + 18] == AllB[n]
    ensures forall n, k :: 0 <= n < 27 && 0 <= k < 9 ==> |r[n]| == 9 && 0 <= r[n][k] < 81
  {
    GroupEntries();
    AllNeighborhoods
  }

  /** xy2block gives a corner in {1, 4, 7} on each axis, at most 2 below the coordinate. */
  lemma BlockCorner(x: int, y: int)
    requires 1 <= x <= 9 && 1 <= y <= 9
    ensures Xy2Block(x, y).0 in {1, 4, 7} && Xy2Block(x, y).1 in {1, 4, 7}
    ensures Xy2Block(x, y).0 <= x < Xy2Block(x, y).0 + 3
    ensures Xy2Block(x, y).1 <= y < Xy2Block(x, y).1 + 3
  {
  }

  /** The initializer's coordinate and block arithmetic selects row idx/9, column idx%9 and block idx%9/3 + 3*(idx/9/3). */
  lemma NeighborhoodArithmetic(idx: int)
    requires 0 <= idx < 81
    ensures idx in NeighborhoodMapping
    ensures NeighborhoodMapping[idx] == Neighborhoods(AllH[Row(idx)], AllV[Col(idx)], AllB[Block(idx)])
  {
    var x, y := idx % 9 + 1, idx / 9 + 1;
    assert NeighborhoodMapping[idx] == MappingEntry(idx);
    IndexRoundTrip(idx);
    assert MappingEntry(idx) == EntryAt(x, y);
    BlockNumberRange(x, y);
    assert (x - 1) / 3 + 3 * ((y - 1) / 3) == Block(idx);
  }

  /** Every group has 9 entries, all of them cell indices. */
  lemma GroupEntries()
    ensures |AllNeighborhoods| == 27
    ensures forall n :: 0 <= n < 9 ==>
      AllNeighborhoods[n] == AllH[n] && AllNeighborhoods[n + 9] == AllV[n] && AllNeighborhoods[n + 18] == AllB[n]
    ensures forall n, k :: 0 <= n < 27 && 0 <= k < 9 ==> |AllNeighborhoods[n]| == 9 && 0 <= AllNeighborhoods[n][k] < 81
  {
    forall n, k | 0 <= n < 27 && 0 <= k < 9
      ensures |AllNeighborhoods[n]| == 9 && 0 <= AllNeighborhoods[n][k] < 81
    {
      if n < 9 {
        assert AllNeighborhoods[n][k] == RowCell(n, k);
      } else if n < 18 {
        assert AllNeighborhoods[n][k] == ColCell(n - 9, k);
      } else {
        assert AllNeighborhoods[n][k] == BlockCell(n - 18, k);
      }
    }
  }

  /** A group as the State methods take it: 9 cell indices. */
  predicate IsGroup(grp: seq<int>)
  {
    |grp| == 9 && forall k :: 0 <= k < 9 ==> 0 <= grp[k] < 81
  }

  /** The three groups getNeighborHood returns are groups of 9 cell indices. */
  lemma NeighborhoodGroups(idx: int)
    requires 0 <= idx < 81
    ensures IsGroup(GetNeighborHood(idx).h) && IsGroup(GetNeighborHood(idx).v) && IsGroup(GetNeighborHood(idx).b)
    ensures forall m :: 0 <= m < 3 ==> IsGroup(GetNeighborHood(idx).Get()[m])
  {
    GroupEntries();
    assert AllNeighborhoods[Row(idx)] == AllH[Row(idx)];
    assert AllNeighborhoods[Col(idx) + 9] == AllV[Col(idx)];
    assert AllNeighborhoods[Block(idx) + 18] == AllB[Block(idx)];
  }

  /** The row group r holds exactly the indices whose row is r. */
  lemma RowMembers(r: int, j: int)
    requires 0 <= r < 9 && 0 <= j < 81
    ensures j in AllH[r] <==> Row(j) == r
  {
    if Row(j) == r {
      assert AllH[r][Col(j)] == j;
    }
  }

  /** The column group c holds exactly the indices whose column is c. */
  lemma ColMembers(c: int, j: int)
    requires 0 <= c < 9 && 0 <= j < 81
    ensures j in AllV[c] <==> Col(j) == c
  {
    if Col(j) == c {
      assert AllV[c][Row(j)] == j;
    }
  }

  /** The block group b holds exactly the indices whose block is b. */
  lemma BlockMembers(b: int, j: int)
    requires 0 <= b < 9 && 0 <= j < 81
    ensures j in AllB[b] <==> Block(j) == b
  {
    if Block(j) == b {
      var k := 3 * (Row(j) % 3) + Col(j) % 3;
      BlockAt(b, k);
      BlockIndexOf(j, k);
    }
    if j in AllB[b] {
      var k :| 0 <= k < 9 && AllB[b][k] == j;
      BlockAt(b, k);
      BlockOfIndex(b, k);
    }
  }

  /** The cell of a block at offset 3*(row%3) + col%3 is the cell itself. */
  lemma BlockIndexOf(j: int, k: int)
    requires 0 <= j < 81 && k == 3 * (Row(j) % 3) + Col(j) % 3
    ensures 0 <= k < 9 && BlockCell(Block(j), k) == j
  {
    var r, c := j / 9, j % 9;
    assert j == 9 * r + c;
    var b := Block(j);
    assert b / 3 == r / 3 && b % 3 == c / 3;
    assert k / 3 == r % 3 && k % 3 == c % 3;
  }

  /** Every entry of block b has block number b. */
  lemma BlockOfIndex(b: int, k: int)
    requires 0 <= b < 9 && 0 <= k < 9
    ensures 0 <= BlockCell(b, k) < 81 && Block(BlockCell(b, k)) == b
  {
    var j := BlockCell(b, k);
    var r, c := 3 * (b / 3) + k / 3, 3 * (b % 3) + k % 3;
    assert j == 9 * r + c && 0 <= c < 9;
    assert j / 9 == r && j % 9 == c;
    assert c / 3 == b % 3 && r / 3 == b / 3;
  }

  /** Each index lies in exactly three of the 27 groups: one row, one column and one block. */
  lemma ExactlyOneOfEach(j: int, n: int)
    requires 0 <= j < 81 && 0 <= n < 27
    ensures j in AllNeighborhoods[n] <==> n == Row(j) || n == 9 + Col(j) || n == 18 + Block(j)
  {
    GroupEntries();
    if n < 9 {
      RowMembers(n, j);
    } else if n < 18 {
      ColMembers(n - 9, j);
    } else {
      BlockMembers(n - 18, j);
    }
  }

  /** Two different cells are peers when they share a row, a column or a block. */
  predicate IsPeer(i: int, j: int)
    requires 0 <= i < 81 && 0 <= j < 81
  {
    i != j && (Row(i) == Row(j) || Col(i) == Col(j) || Block(i) == Block(j))
  }

  /** The other cells of a cell's three groups are exactly its peers, and every cell lies in its own groups. */
  lemma NeighborhoodIsPeers(i: int, j: int)
    requires 0 <= i < 81 && 0 <= j < 81
    ensures i in GetNeighborHood(i).h && i in GetNeighborHood(i).v && i in GetNeighborHood(i).b
    ensures j != i && (j in GetNeighborHood(i).h || j in GetNeighborHood(i).v || j in GetNeighborHood(i).b)
            <==> IsPeer(i, j)
  {
    RowMembers(Row(i), j);
    ColMembers(Col(i), j);
    BlockMembers(Block(i), j);
    RowMembers(Row(i), i);
    ColMembers(Col(i), i);
    BlockMembers(Block(i), i);
  }
}
