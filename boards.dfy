/** The value-level view of a game board: a column-major matrix of cell values
    (board[x][y] is column x, row y; 0 is empty, a piece's value is occupied),
    and the placement, wire-format and line-clearing rules stated on it. The
    Grid class keeps one of these as the abstract value of its cell array. */
module Boards {
  import opened Text

  /** A board coordinate (x, y): column, then row. */
  type Coord = (int, int)

  /** board[x][y]; every column of a grid has the same length. */
  type Board = seq<seq<Int32>>

  /** A piece's 3x3 block matrix: blocks[i][j], 0 where the piece has no block. */
  type Piece = p: seq<seq<Int32>> | |p| == 3 && |p[0]| == 3 && |p[1]| == 3 && |p[2]| == 3
    witness [[0, 0, 0], [0, 0, 0], [0, 0, 0]]

  predicate Shaped(b: Board, cols: nat, rows: nat)
  {
    |b| == cols && forall x | 0 <= x < cols :: |b[x]| == rows
  }

  predicate InBounds(b: Board, x: int, y: int)
  {
    0 <= x < |b| && 0 <= y < |b[x]|
  }

  /** The board every cell of which is empty. */
  function Zeros(cols: nat, rows: nat): (b: Board)
    ensures Shaped(b, cols, rows)
    ensures forall x, y | 0 <= x < cols && 0 <= y < rows :: b[x][y] == 0
  {
    seq(cols, _ => seq(rows, _ => 0))
  }

  /** The board with cell (x, y) set to v. */
  function Write(b: Board, x: int, y: int, v: Int32): (r: Board)
    requires InBounds(b, x, y)
    ensures |r| == |b| && forall cx | 0 <= cx < |b| :: |r[cx]| == |b[cx]|
    ensures forall cx, cy | InBounds(b, cx, cy) :: r[cx][cy] == if cx == x && cy == y then v else b[cx][cy]
  {
    var column: seq<Int32> := b[x][y := v];
    b[x := column]
  }

  /** The value Grid.get reports: the stored value on the board, -1 off it. */
  function At(b: Board, x: int, y: int): Int32
  {
    if InBounds(b, x, y) then b[x][y] else -1
  }

  // ---------------------------------------------------------------------------
  // Placing a piece

  /** The board cells under a piece centred at (x, y): row i of the piece covers
      board row y + 1 - i, column j covers board column x - 1 + j. */
  function Surrounding3x3(x: int, y: int): (s: seq<seq<Coord>>)
    ensures |s| == 3
    ensures forall i | 0 <= i < 3 :: |s[i]| == 3
    ensures forall i, j | 0 <= i < 3 && 0 <= j < 3 :: s[i][j] == (x - 1 + j, y + 1 - i)
  {
    [[(x - 1, y + 1), (x, y + 1), (x + 1, y + 1)],
     [(x - 1, y), (x, y), (x + 1, y)],
     [(x - 1, y - 1), (x, y - 1), (x + 1, y - 1)]]
  }

  /** The nine coordinates are exactly the cells at most one step from (x, y)
      in each direction. */
  lemma Surrounding3x3Covers(x: int, y: int)
    ensures forall c: Coord :: (exists i, j | 0 <= i < 3 && 0 <= j < 3 :: Surrounding3x3(x, y)[i][j] == c) <==>
                               x - 1 <= c.0 <= x + 1 && y - 1 <= c.1 <= y + 1
  {
    var s := Surrounding3x3(x, y);
    forall c: Coord | x - 1 <= c.0 <= x + 1 && y - 1 <= c.1 <= y + 1
      ensures exists i, j | 0 <= i < 3 && 0 <= j < 3 :: s[i][j] == c
    {
      var i, j := y + 1 - c.1, c.0 - x + 1;
      assert s[i][j] == c;
    }
  }

  /** Piece block (i, j) has room: it is empty, or it lands on an empty board cell. */
  predicate BlockFits(b: Board, x: int, y: int, p: Piece, i: int, j: int)
    requires 0 <= i < 3 && 0 <= j < 3
  {
    p[i][j] != 0 ==> InBounds(b, x - 1 + j, y + 1 - i) && b[x - 1 + j][y + 1 - i] == 0
  }

  /** The piece centred at (x, y) lies wholly on the board, over empty cells only. */
  predicate Fits(b: Board, x: int, y: int, p: Piece)
  {
    forall i, j | 0 <= i < 3 && 0 <= j < 3 :: BlockFits(b, x, y, p, i, j)
  }

  /** Every block of the piece centred at (x, y) lands on the board. */
  predicate OnBoard(b: Board, x: int, y: int, p: Piece)
  {
    forall i, j | 0 <= i < 3 && 0 <= j < 3 :: p[i][j] != 0 ==> InBounds(b, x - 1 + j, y + 1 - i)
  }

  lemma FitsOnBoard(b: Board, x: int, y: int, p: Piece)
    requires Fits(b, x, y, p)
    ensures OnBoard(b, x, y, p)
  {
    forall i, j | 0 <= i < 3 && 0 <= j < 3 && p[i][j] != 0 ensures InBounds(b, x - 1 + j, y + 1 - i) {
      assert BlockFits(b, x, y, p, i, j);
    }
  }

  predicate HasBlock(p: Piece)
  {
    exists i, j | 0 <= i < 3 && 0 <= j < 3 :: p[i][j] != 0
  }

  /** Board cell (cx, cy) once the first k blocks of the piece, in row-major
      order, have been written onto it. */
  function PlacedCell(b: Board, x: int, y: int, p: Piece, k: int, cx: int, cy: int): Int32
    requires InBounds(b, cx, cy)
  {
    var i, j := y + 1 - cy, cx - x + 1;
    if 0 <= i < 3 && 0 <= j < 3 && 3 * i + j < k && p[i][j] != 0 then p[i][j] else b[cx][cy]
  }

  function PlacedUpTo(b: Board, x: int, y: int, p: Piece, k: int): (r: Board)
    ensures |r| == |b| && forall cx | 0 <= cx < |b| :: |r[cx]| == |b[cx]|
  {
    seq(|b|, cx requires 0 <= cx < |b| =>
      seq(|b[cx]|, cy requires 0 <= cy < |b[cx]| => PlacedCell(b, x, y, p, k, cx, cy)))
  }

  lemma PlacedNothing(b: Board, x: int, y: int, p: Piece)
    ensures PlacedUpTo(b, x, y, p, 0) == b
  {
    var r := PlacedUpTo(b, x, y, p, 0);
    forall cx | 0 <= cx < |b| ensures r[cx] == b[cx] {
    }
  }

  /** The board after writing every block of the piece centred at (x, y). */
  function Placed(b: Board, x: int, y: int, p: Piece): Board
  {
    PlacedUpTo(b, x, y, p, 9)
  }

  /** Writing block (i, j), the k-th in row-major order, extends the placement by one cell. */
  lemma PlacedStep(b: Board, x: int, y: int, p: Piece, i: int, j: int)
    requires 0 <= i < 3 && 0 <= j < 3
    requires p[i][j] != 0 ==> InBounds(b, x - 1 + j, y + 1 - i)
    ensures var before := PlacedUpTo(b, x, y, p, 3 * i + j);
            PlacedUpTo(b, x, y, p, 3 * i + j + 1) ==
              if p[i][j] == 0 then before
              else Write(before, x - 1 + j, y + 1 - i, p[i][j])
  {
    var k := 3 * i + j;
    var before, after := PlacedUpTo(b, x, y, p, k), PlacedUpTo(b, x, y, p, k + 1);
    var expected := if p[i][j] == 0 then before else Write(before, x - 1 + j, y + 1 - i, p[i][j]);
    forall cx | 0 <= cx < |b| ensures after[cx] == expected[cx] {
      forall cy | 0 <= cy < |b[cx]| ensures after[cx][cy] == expected[cx][cy] {
        var i', j' := y + 1 - cy, cx - x + 1;
        if 0 <= i' < 3 && 0 <= j' < 3 && 3 * i' + j' == k {
          assert i' == i && j' == j;
        }
      }
    }
  }

  /** Once a piece with at least one block has been placed where it fitted, the
      same piece no longer fits at the same centre. */
  lemma PlacedPieceBlocksItself(b: Board, x: int, y: int, p: Piece)
    requires Fits(b, x, y, p) && HasBlock(p)
    ensures !Fits(Placed(b, x, y, p), x, y, p)
  {
    var i, j :| 0 <= i < 3 && 0 <= j < 3 && p[i][j] != 0;
    assert BlockFits(b, x, y, p, i, j);
    var after := Placed(b, x, y, p);
    assert after[x - 1 + j][y + 1 - i] == p[i][j];
    assert !BlockFits(after, x, y, p, i, j);
  }

  /** Placing changes exactly the cells under the piece's blocks, each to its block's value. */
  lemma PlacedCells(b: Board, x: int, y: int, p: Piece, cols: nat, rows: nat)
    requires Shaped(b, cols, rows)
    ensures Shaped(Placed(b, x, y, p), cols, rows)
    ensures forall i, j | 0 <= i < 3 && 0 <= j < 3 && p[i][j] != 0 && InBounds(b, x - 1 + j, y + 1 - i) ::
              Placed(b, x, y, p)[x - 1 + j][y + 1 - i] == p[i][j]
    ensures forall cx, cy | 0 <= cx < cols && 0 <= cy < rows ::
              (!(x - 1 <= cx <= x + 1 && y - 1 <= cy <= y + 1) || p[y + 1 - cy][cx - x + 1] == 0) ==>
              Placed(b, x, y, p)[cx][cy] == b[cx][cy]
  {
  }

  // ---------------------------------------------------------------------------
  // The wire format: column-major flattening, space-separated decimal tokens

  /** The cell values with columns outer and rows inner. */
  function Flatten(b: Board): seq<Int32>
  {
    if b == [] then [] else Flatten(b[..|b| - 1]) + b[|b| - 1]
  }

  lemma {:induction false} FlattenLength(b: Board, cols: nat, rows: nat)
    requires Shaped(b, cols, rows)
    ensures |Flatten(b)| == cols * rows
  {
    if cols > 0 {
      FlattenLength(b[..cols - 1], cols - 1, rows);
    }
  }

  /** Boards of the same shape with the same flattening are the same board. */
  lemma {:induction false} FlattenInjective(b1: Board, b2: Board, cols: nat, rows: nat)
    requires Shaped(b1, cols, rows) && Shaped(b2, cols, rows)
    requires Flatten(b1) == Flatten(b2)
    ensures b1 == b2
  {
    if cols > 0 {
      var i1, i2 := b1[..cols - 1], b2[..cols - 1];
      FlattenLength(i1, cols - 1, rows);
      FlattenLength(i2, cols - 1, rows);
      assert Flatten(b1) == Flatten(i1) + b1[cols - 1];
      assert Flatten(b2) == Flatten(i2) + b2[cols - 1];
      assert Flatten(i1) == Flatten(b1)[..|Flatten(i1)|];
      assert Flatten(i2) == Flatten(b2)[..|Flatten(i2)|];
      FlattenInjective(i1, i2, cols - 1, rows);
      assert b1[cols - 1] == Flatten(b1)[|Flatten(i1)|..];
      assert b2[cols - 1] == Flatten(b2)[|Flatten(i2)|..];
      assert b1 == i1 + [b1[cols - 1]];
      assert b2 == i2 + [b2[cols - 1]];
    }
  }

  /** Writing cell (x, y) writes position |Flatten(b[..x])| + y of the flattening. */
  lemma {:induction false} FlattenUpdate(b: Board, x: int, y: int, v: Int32)
    requires 0 <= x < |b| && 0 <= y < |b[x]|
    ensures |Flatten(b[..x])| + y < |Flatten(b)|
    ensures Flatten(Write(b, x, y, v)) == Flatten(b)[|Flatten(b[..x])| + y := v]
  {
    var n := |b|;
    var b' := Write(b, x, y, v);
    if x == n - 1 {
      assert b'[..n - 1] == b[..n - 1];
    } else {
      assert b'[..n - 1] == Write(b[..n - 1], x, y, v);
      assert b[..n - 1][..x] == b[..x];
      FlattenUpdate(b[..n - 1], x, y, v);
    }
  }

  lemma FlattenPrefixStep(b: Board, i: nat)
    requires i < |b|
    ensures Flatten(b[..i + 1]) == Flatten(b[..i]) + b[i]
  {
    assert b[..i + 1][..i] == b[..i];
  }

  /** The board's cells as decimal tokens, in wire order. */
  function Tokens(vals: seq<Int32>): (ts: seq<string>)
    ensures |ts| == |vals|
    ensures forall k | 0 <= k < |vals| :: ts[k] == IntToString(vals[k])
  {
    seq(|vals|, k requires 0 <= k < |vals| => IntToString(vals[k]))
  }

  /** The board-state string: the cell values separated by single spaces. */
  function Encode(vals: seq<Int32>): string
  {
    Join(Tokens(vals))
  }

  /** How many of the first n tokens parse as ints before the first that does
      not, or before the tokens run out. */
  function Accepted(toks: seq<string>, n: nat): (g: nat)
    ensures g <= n && g <= |toks|
    ensures forall k | 0 <= k < g :: ParseInt(toks[k]).Some?
    ensures g < n && g < |toks| ==> ParseInt(toks[g]).None?
  {
    if n == 0 || toks == [] || ParseInt(toks[0]).None? then 0
    else 1 + Accepted(toks[1..], n - 1)
  }

  /** The cell values f after reading tokens over them in order until one is
      missing or fails to parse; the cells from there on keep their values. */
  function Overwrite(f: seq<Int32>, toks: seq<string>): (r: seq<Int32>)
    ensures |r| == |f|
  {
    var g := Accepted(toks, |f|);
    seq(|f|, k requires 0 <= k < |f| => if k < g then ParseInt(toks[k]).value else f[k])
  }

  /** The first k tokens all parse as ints. */
  predicate ParsesUpTo(toks: seq<string>, k: nat)
    requires k <= |toks|
  {
    forall t | 0 <= t < k :: ParseInt(toks[t]).Some?
  }

  lemma ParsesStep(toks: seq<string>, k: nat)
    requires k < |toks| && ParsesUpTo(toks, k) && ParseInt(toks[k]).Some?
    ensures ParsesUpTo(toks, k + 1)
  {
  }

  /** Accepted is the first position that is not a parsable token, capped at n. */
  lemma AcceptedAt(toks: seq<string>, n: nat, k: nat)
    requires k <= n && k <= |toks| && ParsesUpTo(toks, k)
    requires k == n || k == |toks| || ParseInt(toks[k]).None?
    ensures Accepted(toks, n) == k
  {
  }

  /** The cell values f with the first k tokens, those that parse, read over them. */
  function ReadPrefix(f: seq<Int32>, toks: seq<string>, k: nat): (r: seq<Int32>)
    ensures |r| == |f|
  {
    seq(|f|, t requires 0 <= t < |f| =>
      if t < k && t < |toks| && ParseInt(toks[t]).Some? then ParseInt(toks[t]).value else f[t])
  }

  lemma ReadPrefixStep(f: seq<Int32>, toks: seq<string>, k: nat, v: Int32)
    requires k < |f| && k < |toks| && ParseInt(toks[k]) == Some(v)
    ensures ReadPrefix(f, toks, k)[k := v] == ReadPrefix(f, toks, k + 1)
  {
  }

  lemma ReadPrefixWhole(f: seq<Int32>, toks: seq<string>)
    ensures Overwrite(f, toks) == ReadPrefix(f, toks, Accepted(toks, |f|))
  {
  }

  /** Reading an encoded state over a board of the right size accepts every
      token and yields exactly the encoded values. */
  lemma DecodeEncode(f: seq<Int32>, vals: seq<Int32>)
    requires |f| == |vals|
    ensures Accepted(Split(Encode(vals)), |f|) == |f|
    ensures Overwrite(f, Split(Encode(vals))) == vals
  {
    if |vals| > 0 {
      var ts := Tokens(vals);
      forall k | 0 <= k < |ts| ensures |ts[k]| >= 1 && ' ' !in ts[k] && ParseInt(ts[k]) == Some(vals[k]) {
        IntToStringShape(vals[k]);
        ParseIntToString(vals[k]);
      }
      SplitJoin(ts);
    }
  }

  /** A non-empty board-state string splits into exactly one decimal token per
      cell value, in order. */
  lemma EncodeTokens(vals: seq<Int32>)
    requires |vals| >= 1
    ensures Split(Encode(vals)) == Tokens(vals)
    ensures |Split(Encode(vals))| == |vals|
  {
    var ts := Tokens(vals);
    forall k | 0 <= k < |ts| ensures |ts[k]| >= 1 && ' ' !in ts[k] {
      IntToStringShape(vals[k]);
    }
    SplitJoin(ts);
  }

  /** Rendering one more value appends a space and its token. */
  lemma EncodeStep(vals: seq<Int32>, k: nat)
    requires k < |vals|
    ensures Encode(vals[..k + 1]) == if k == 0 then IntToString(vals[0]) else Encode(vals[..k]) + " " + IntToString(vals[k])
  {
    assert Tokens(vals[..k + 1])[..k] == Tokens(vals[..k]);
  }

  /** The rendered string has no leading or trailing blank, so trim leaves it be. */
  lemma EncodeTrimmed(vals: seq<Int32>)
    requires |vals| >= 1
    ensures Trim(Encode(vals) + " ") == Encode(vals)
  {
    var ts := Tokens(vals);
    forall k | 0 <= k < |ts| ensures |ts[k]| >= 1 {
      IntToStringShape(vals[k]);
    }
    IntToStringShape(vals[0]);
    IntToStringShape(vals[|vals| - 1]);
    TrimJoinSpace(ts);
  }

  // ---------------------------------------------------------------------------
  // Full lines

  /** Every cell of column x holds a block. */
  predicate FullColumn(b: Board, x: int)
    requires 0 <= x < |b|
  {
    forall y | 0 <= y < |b[x]| :: b[x][y] != 0
  }

  /** Every cell of row y holds a block. */
  predicate FullRow(b: Board, y: int)
  {
    forall x | 0 <= x < |b| :: 0 <= y < |b[x]| && b[x][y] != 0
  }

  /** The number of full columns among the first i. */
  function FullColumnsBelow(b: Board, i: nat): nat
    requires i <= |b|
  {
    if i == 0 then 0 else FullColumnsBelow(b, i - 1) + (if FullColumn(b, i - 1) then 1 else 0)
  }

  /** The number of full rows among the first i. */
  function FullRowsBelow(b: Board, i: nat): nat
  {
    if i == 0 then 0 else FullRowsBelow(b, i - 1) + (if FullRow(b, i - 1) then 1 else 0)
  }

  /** The number of full lines, columns and rows together. */
  function LineCount(b: Board, rows: nat): nat
  {
    FullColumnsBelow(b, |b|) + FullRowsBelow(b, rows)
  }

  function ColumnCells(x: int, rows: nat): set<Coord>
  {
    set y | 0 <= y < rows :: (x, y)
  }

  function RowCells(y: int, cols: nat): set<Coord>
  {
    set x | 0 <= x < cols :: (x, y)
  }

  /** The cells of the full columns among the first i. */
  function FullColumnCells(b: Board, i: nat, rows: nat): set<Coord>
    requires i <= |b|
  {
    if i == 0 then {}
    else FullColumnCells(b, i - 1, rows) + (if FullColumn(b, i - 1) then ColumnCells(i - 1, rows) else {})
  }

  /** The cells of the full rows among the first i. */
  function FullRowCells(b: Board, i: nat): set<Coord>
  {
    if i == 0 then {}
    else FullRowCells(b, i - 1) + (if FullRow(b, i - 1) then RowCells(i - 1, |b|) else {})
  }

  /** Every cell that lies on a full line, each counted once. */
  function ClearedCells(b: Board, rows: nat): set<Coord>
  {
    FullColumnCells(b, |b|, rows) + FullRowCells(b, rows)
  }

  /** The board with the given cells emptied. */
  function ZeroOut(b: Board, cells: set<Coord>): (r: Board)
    ensures |r| == |b| && forall x | 0 <= x < |b| :: |r[x]| == |b[x]|
  {
    seq(|b|, x requires 0 <= x < |b| =>
      seq(|b[x]|, y requires 0 <= y < |b[x]| => if (x, y) in cells then 0 else b[x][y]))
  }

  lemma ZeroOutNothing(b: Board)
    ensures ZeroOut(b, {}) == b
  {
    var r := ZeroOut(b, {});
    forall x | 0 <= x < |b| ensures r[x] == b[x] {
    }
  }

  /** Emptying one more on-board cell extends the emptied set by that cell. */
  lemma ZeroOutStep(b: Board, cells: set<Coord>, c: Coord)
    requires InBounds(b, c.0, c.1)
    ensures Write(ZeroOut(b, cells), c.0, c.1, 0) == ZeroOut(b, cells + {c})
  {
    var lhs, rhs := Write(ZeroOut(b, cells), c.0, c.1, 0), ZeroOut(b, cells + {c});
    forall x | 0 <= x < |b| ensures lhs[x] == rhs[x] {
    }
  }

  /** The board once every full line has been emptied. */
  function Cleared(b: Board, rows: nat): Board
  {
    ZeroOut(b, ClearedCells(b, rows))
  }

  lemma {:induction false} FullColumnCellsMembers(b: Board, i: nat, rows: nat)
    requires i <= |b|
    ensures forall c: Coord :: c in FullColumnCells(b, i, rows) <==>
              0 <= c.0 < i && 0 <= c.1 < rows && FullColumn(b, c.0)
  {
    if i > 0 {
      FullColumnCellsMembers(b, i - 1, rows);
    }
  }

  lemma {:induction false} FullRowCellsMembers(b: Board, i: nat)
    ensures forall c: Coord :: c in FullRowCells(b, i) <==>
              0 <= c.0 < |b| && 0 <= c.1 < i && FullRow(b, c.1)
  {
    if i > 0 {
      FullRowCellsMembers(b, i - 1);
    }
  }

  /** A cell is cleared exactly when it is on the board and on a full column or a full row. */
  lemma ClearedCellsMembers(b: Board, cols: nat, rows: nat)
    requires Shaped(b, cols, rows)
    ensures forall c: Coord :: c in ClearedCells(b, rows) <==>
              InBounds(b, c.0, c.1) && (FullColumn(b, c.0) || FullRow(b, c.1))
  {
    FullColumnCellsMembers(b, cols, rows);
    FullRowCellsMembers(b, rows);
  }

  /** Emptying the full lines leaves every cleared cell 0 and every other cell as it was. */
  lemma ClearedBoard(b: Board, cols: nat, rows: nat)
    requires Shaped(b, cols, rows)
    ensures Shaped(Cleared(b, rows), cols, rows)
    ensures forall x, y | 0 <= x < cols && 0 <= y < rows ::
              Cleared(b, rows)[x][y] == if FullColumn(b, x) || FullRow(b, y) then 0 else b[x][y]
  {
    ClearedCellsMembers(b, cols, rows);
  }

  /** After clearing, no column and no row of a non-empty board is full. */
  lemma ClearedHasNoFullLine(b: Board, cols: nat, rows: nat)
    requires Shaped(b, cols, rows) && cols >= 1 && rows >= 1
    ensures forall x | 0 <= x < cols :: !FullColumn(Cleared(b, rows), x)
    ensures forall y | 0 <= y < rows :: !FullRow(Cleared(b, rows), y)
  {
    var cleared := ClearedCells(b, rows);
    var after := ZeroOut(b, cleared);
    ClearedCellsMembers(b, cols, rows);
    forall x | 0 <= x < cols ensures !FullColumn(after, x) {
      if FullColumn(b, x) {
        assert (x, 0) in cleared;
        assert after[x][0] == 0;
      } else {
        var y :| 0 <= y < rows && b[x][y] == 0;
        assert after[x][y] == 0;
      }
    }
    forall y | 0 <= y < rows ensures !FullRow(after, y) {
      if FullRow(b, y) {
        assert (0, y) in cleared;
        assert after[0][y] == 0;
      } else {
        var x :| 0 <= x < cols && b[x][y] == 0;
        assert after[x][y] == 0;
      }
    }
  }

  lemma {:induction false} NoFullColumns(b: Board, i: nat)
    requires i <= |b| && forall x | 0 <= x < |b| :: !FullColumn(b, x)
    ensures FullColumnsBelow(b, i) == 0
  {
    if i > 0 {
      NoFullColumns(b, i - 1);
    }
  }

  lemma {:induction false} NoFullRows(b: Board, i: nat)
    requires forall y | 0 <= y < i :: !FullRow(b, y)
    ensures FullRowsBelow(b, i) == 0
  {
    if i > 0 {
      NoFullRows(b, i - 1);
    }
  }

  /** Clearing a second time finds no line, no cell, and changes nothing. */
  lemma ClearIsIdempotent(b: Board, cols: nat, rows: nat)
    requires Shaped(b, cols, rows) && cols >= 1 && rows >= 1
    ensures LineCount(Cleared(b, rows), rows) == 0
    ensures ClearedCells(Cleared(b, rows), rows) == {}
    ensures Cleared(Cleared(b, rows), rows) == Cleared(b, rows)
  {
    var after := Cleared(b, rows);
    ClearedBoard(b, cols, rows);
    ClearedHasNoFullLine(b, cols, rows);
    NoFullColumns(after, cols);
    NoFullRows(after, rows);
    NothingToClear(after, cols, rows);
  }

  /** A board with no full line has no cell to clear, and clearing leaves it alone. */
  lemma NothingToClear(b: Board, cols: nat, rows: nat)
    requires Shaped(b, cols, rows)
    requires forall x | 0 <= x < cols :: !FullColumn(b, x)
    requires forall y | 0 <= y < rows :: !FullRow(b, y)
    ensures ClearedCells(b, rows) == {}
    ensures Cleared(b, rows) == b
  {
    ClearedCellsMembers(b, cols, rows);
    assert ClearedCells(b, rows) == {};
    var after := ZeroOut(b, {});
    forall x | 0 <= x < cols ensures after[x] == b[x] {
    }
  }

  /** On a board with at least one row and one column, some cell is cleared
      exactly when some line is full. */
  lemma ClearsCellsIffLines(b: Board, cols: nat, rows: nat)
    requires Shaped(b, cols, rows) && cols >= 1 && rows >= 1
    ensures ClearedCells(b, rows) != {} <==> LineCount(b, rows) > 0
  {
    ClearedCellsMembers(b, cols, rows);
    if ClearedCells(b, rows) == {} {
      forall x | 0 <= x < cols ensures !FullColumn(b, x) {
        assert (x, 0) !in ClearedCells(b, rows);
      }
      forall y | 0 <= y < rows ensures !FullRow(b, y) {
        assert (0, y) !in ClearedCells(b, rows);
      }
      NoFullColumns(b, cols);
      NoFullRows(b, rows);
    } else {
      var c :| c in ClearedCells(b, rows);
      if FullColumn(b, c.0) {
        SomeFullColumn(b, cols, c.0);
      } else {
        SomeFullRow(b, rows, c.1);
      }
    }
  }

  lemma {:induction false} SomeFullColumn(b: Board, i: nat, x: int)
    requires i <= |b| && 0 <= x < i && FullColumn(b, x)
    ensures FullColumnsBelow(b, i) > 0
  {
    if x < i - 1 {
      SomeFullColumn(b, i - 1, x);
    }
  }

  lemma {:induction false} SomeFullRow(b: Board, i: nat, y: int)
    requires 0 <= y < i && FullRow(b, y)
    ensures FullRowsBelow(b, i) > 0
  {
    if y < i - 1 {
      SomeFullRow(b, i - 1, y);
    }
  }
}
