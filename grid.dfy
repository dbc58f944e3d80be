/** The game board: a fixed cols x rows array of cell values, updated in place. */
module Grids {
  import opened Text
  import opened Boards

  class Grid {
    const cols: nat
    const rows: nat
    /** cells[x, y]: column x, row y. */
    const cells: array2<Int32>
    /** The abstract value of the cell array. */
    ghost var board: Board

    ghost predicate Valid()
      reads this, cells
    {
      && cells.Length0 == cols && cells.Length1 == rows
      && Shaped(board, cols, rows)
      && forall x, y | 0 <= x < cols && 0 <= y < rows :: board[x][y] == cells[x, y]
    }

    /** A grid of the given size with every cell empty. */
    constructor (cols: nat, rows: nat)
      ensures Valid() && fresh(cells)
      ensures this.cols == cols && this.rows == rows
      ensures board == Zeros(cols, rows)
    {
      this.cols := cols;
      this.rows := rows;
      var a := new Int32[cols, rows];
      for y := 0 to rows
        invariant forall x', y' | 0 <= x' < cols && 0 <= y' < y :: a[x', y'] == 0
      {
        for x := 0 to cols
          invariant forall x', y' | 0 <= x' < cols && 0 <= y' < y :: a[x', y'] == 0
          invariant forall x' | 0 <= x' < x :: a[x', y] == 0
        {
          a[x, y] := 0;
        }
      }
      cells := a;
      board := Zeros(cols, rows);
    }

    /** The value at (x, y), or -1 when (x, y) is off the grid. */
    function Get(x: int, y: int): (v: Int32)
      reads this, cells
      requires Valid()
      ensures v == At(board, x, y)
    {
      if 0 <= x < cols && 0 <= y < rows then cells[x, y] else -1
    }

    /** Overwrites one cell; the coordinate must be on the grid. */
    method Set(x: int, y: int, value: Int32)
      requires Valid() && 0 <= x < cols && 0 <= y < rows
      modifies this`board, cells
      ensures Valid()
      ensures board == Write(old(board), x, y, value)
    {
      cells[x, y] := value;
      board := Write(board, x, y, value);
    }

    /** Whether the piece centred at (x, y) fits: every block must land on an
        empty cell of the grid. Nothing is changed. */
    method CanPlayPiece(x: int, y: int, piece: Piece) returns (canPlay: bool)
      requires Valid()
      ensures canPlay == Fits(board, x, y, piece)
    {
      canPlay := true;
      var surrounding: seq<seq<Coord>> := Surrounding3x3(x, y);
      for i := 0 to 3
        invariant canPlay == forall i', j' | 0 <= i' < i && 0 <= j' < 3 :: BlockFits(board, x, y, piece, i', j')
      {
        for j := 0 to 3
          invariant canPlay == (&& (forall i', j' | 0 <= i' < i && 0 <= j' < 3 :: BlockFits(board, x, y, piece, i', j'))
                                && (forall j' | 0 <= j' < j :: BlockFits(board, x, y, piece, i, j')))
        {
          ghost var before := canPlay;
          if piece[i][j] != 0 {
            var (cx, cy) := surrounding[i][j];
            if cx > cols || cy > rows {
              canPlay := false;
            }
            if Get(cx, cy) != 0 {
              canPlay := false;
            }
          }
          assert canPlay == (before && BlockFits(board, x, y, piece, i, j));
        }
      }
    }

    /** Writes every block of the piece centred at (x, y) onto the grid; each
        block must land on the grid. */
    method PlayPiece(x: int, y: int, piece: Piece)
      requires Valid() && OnBoard(board, x, y, piece)
      modifies this`board, cells
      ensures Valid()
      ensures board == Placed(old(board), x, y, piece)
    {
      ghost var b0 := board;
      PlacedNothing(b0, x, y, piece);
      var surrounding: seq<seq<Coord>> := Surrounding3x3(x, y);
      for i := 0 to 3
        invariant Valid() && board == PlacedUpTo(b0, x, y, piece, 3 * i)
      {
        for j := 0 to 3
          invariant Valid() && board == PlacedUpTo(b0, x, y, piece, 3 * i + j)
        {
          PlacedStep(b0, x, y, piece, i, j);
          if piece[i][j] != 0 {
            var (cx, cy) := surrounding[i][j];
            Set(cx, cy, piece[i][j]);
          }
        }
      }
    }

    /** Whether moving the aim by (x, y) keeps it on the grid; the first
        coordinate is bounded by the row count and the second by the column count. */
    function CheckIfCoordsOnGrid(aim: Coord, x: int, y: int): (valid: bool)
      ensures valid <==> 0 <= aim.0 + x < rows && 0 <= aim.1 + y < cols
    {
      var xAfterChange, yAfterChange := x + aim.0, y + aim.1;
      !(xAfterChange < 0 || xAfterChange > rows - 1 || yAfterChange < 0 || yAfterChange > cols - 1)
    }

    /** Empties every cell. The loops index the first coordinate by the row
        count and the second by the column count, so the grid must be square
        (or have no cells). */
    method ResetGrid()
      requires Valid() && (rows == cols || rows == 0 || cols == 0)
      modifies this`board, cells
      ensures Valid()
      ensures board == Zeros(cols, rows)
    {
      for i := 0 to rows
        invariant Valid()
        invariant forall x, y | 0 <= x < cols && 0 <= y < rows && x < i :: board[x][y] == 0
      {
        for j := 0 to cols
          invariant Valid()
          invariant forall x, y | 0 <= x < cols && 0 <= y < rows && x < i :: board[x][y] == 0
          invariant forall y | 0 <= y < j :: board[i][y] == 0
        {
          Set(i, j, 0);
        }
      }
      forall x | 0 <= x < cols ensures board[x] == Zeros(cols, rows)[x] {
      }
    }

    /** The board as space-separated values, columns outer and rows inner. */
    method GetGridState() returns (state: string)
      requires Valid()
      ensures state == Encode(Flatten(board))
    {
      var stateOfGrid := CellValues();
      var finalOutput := Render(stateOfGrid);
      if |stateOfGrid| > 0 {
        EncodeTrimmed(stateOfGrid);
      }
      state := Trim(finalOutput);
    }

    /** The first loop of getGridState: every cell value, columns outer and
        rows inner. */
    method CellValues() returns (stateOfGrid: seq<Int32>)
      requires Valid()
      ensures stateOfGrid == Flatten(board)
    {
      stateOfGrid := [];
      for i := 0 to cols
        invariant stateOfGrid == Flatten(board[..i])
      {
        for j := 0 to rows
          invariant stateOfGrid == Flatten(board[..i]) + board[i][..j]
        {
          assert board[i][..j + 1] == board[i][..j] + [board[i][j]];
          stateOfGrid := stateOfGrid + [Get(i, j)];
        }
        assert board[i][..rows] == board[i];
        FlattenPrefixStep(board, i);
      }
      assert board[..cols] == board;
    }

    /** Reads space-separated values into the cells, columns outer and rows
        inner. A missing or unparsable value stops the read (ok is false) with
        the cells before it already written; surplus values are ignored. */
    method SetGridState(state: string) returns (ok: bool)
      requires Valid()
      modifies this`board, cells
      ensures Valid()
      ensures Flatten(board) == Overwrite(Flatten(old(board)), Split(state))
      ensures ok <==> Accepted(Split(state), cols * rows) == cols * rows
    {
      ghost var f0 := Flatten(board);
      FlattenLength(board, cols, rows);
      var states := Split(state);
      ok := ReadColumns(states, f0);
    }

    /** The outer loop of setGridState: reads the columns in order from the
        tokens, stopping the whole read at the first missing or unparsable one. */
    method ReadColumns(states: seq<string>, ghost f0: seq<Int32>) returns (ok: bool)
      requires Valid() && |f0| == cols * rows && Flatten(board) == f0
      modifies this`board, cells
      ensures Valid()
      ensures Flatten(board) == Overwrite(f0, states)
      ensures ok <==> Accepted(states, |f0|) == |f0|
    {
      var k := 0;
      for i := 0 to cols
        invariant Valid()
        invariant k == i * rows && k <= |states|
        invariant ParsesUpTo(states, k)
        invariant Flatten(board) == ReadPrefix(f0, states, k)
      {
        ok, k := ReadColumn(i, states, k, f0);
        if !ok {
          return;
        }
      }
      ReadStops(f0, states, k);
      ok := true;
    }

    /** The inner loop of setGridState: reads column i from the tokens starting
        at position k0. When a token is missing or does not parse, the read of
        the whole grid ends there (ok is false). */
    method ReadColumn(i: nat, states: seq<string>, k0: nat, ghost f0: seq<Int32>) returns (ok: bool, k: nat)
      requires Valid() && i < cols && |f0| == cols * rows
      requires k0 == i * rows && k0 <= |states| && ParsesUpTo(states, k0)
      requires Flatten(board) == ReadPrefix(f0, states, k0)
      modifies this`board, cells
      ensures Valid()
      ensures ok ==> k == (i + 1) * rows && k <= |states| && ParsesUpTo(states, k)
      ensures Flatten(board) == if ok then ReadPrefix(f0, states, k) else Overwrite(f0, states)
      ensures !ok ==> Accepted(states, |f0|) < |f0|
    {
      k := k0;
      for j := 0 to rows
        invariant Valid()
        invariant k == i * rows + j && k <= |states|
        invariant ParsesUpTo(states, k)
        invariant Flatten(board) == ReadPrefix(f0, states, k)
      {
        IndexBelowArea(i, j, cols, rows);
        // values.next() runs out, or Integer.parseInt rejects the token
        if k >= |states| || ParseInt(states[k]).None? {
          ReadStops(f0, states, k);
          ok := false;
          return;
        }
        var value := ParseInt(states[k]);
        ReadCellStep(board, cols, rows, i, j, f0, states, value.value);
        ParsesStep(states, k);
        Set(i, j, value.value);
        k := k + 1;
      }
      NextColumnStart(i, rows);
      ok := true;
    }
  }

  /** Reading stops after k tokens: at the end of the cells, of the tokens, or
      before the first token that does not parse. */
  lemma ReadStops(f0: seq<Int32>, toks: seq<string>, k: nat)
    requires k <= |f0| && k <= |toks| && ParsesUpTo(toks, k)
    requires k == |f0| || k == |toks| || ParseInt(toks[k]).None?
    ensures Accepted(toks, |f0|) == k
    ensures Overwrite(f0, toks) == ReadPrefix(f0, toks, k)
  {
    AcceptedAt(toks, |f0|, k);
    ReadPrefixWhole(f0, toks);
  }

  /** The second loop of getGridState: each value's decimal token followed by
      one space. */
  method Render(stateOfGrid: seq<Int32>) returns (finalOutput: string)
    ensures finalOutput == if stateOfGrid == [] then "" else Encode(stateOfGrid) + " "
  {
    finalOutput := "";
    for k := 0 to |stateOfGrid|
      invariant finalOutput == if k == 0 then "" else Encode(stateOfGrid[..k]) + " "
    {
      EncodeStep(stateOfGrid, k);
      finalOutput := finalOutput + IntToString(stateOfGrid[k]) + " ";
    }
    assert stateOfGrid[..|stateOfGrid|] == stateOfGrid;
  }

  /** Position (i, j) of a column-major walk lies inside the cols x rows area. */
  lemma IndexBelowArea(i: nat, j: nat, cols: nat, rows: nat)
    requires i < cols && j < rows
    ensures i * rows + j < cols * rows
  {
    assert i * rows + j < (i + 1) * rows;
    assert (i + 1) * rows <= cols * rows;
  }

  /** Reading token i * rows + j into cell (i, j) extends the read prefix by one. */
  lemma ReadCellStep(b: Board, cols: nat, rows: nat, i: nat, j: nat, f0: seq<Int32>, toks: seq<string>, v: Int32)
    requires Shaped(b, cols, rows) && i < cols && j < rows && |f0| == cols * rows
    requires i * rows + j < |toks| && ParseInt(toks[i * rows + j]) == Some(v)
    requires Flatten(b) == ReadPrefix(f0, toks, i * rows + j)
    ensures Flatten(Write(b, i, j, v)) == ReadPrefix(f0, toks, i * rows + j + 1)
  {
    IndexBelowArea(i, j, cols, rows);
    FlattenLength(b[..i], i, rows);
    FlattenUpdate(b, i, j, v);
    ReadPrefixStep(f0, toks, i * rows + j, v);
  }

  lemma NextColumnStart(i: nat, rows: nat)
    ensures i * rows + rows == (i + 1) * rows
  {
  }

  /** On a square grid the aim test is exactly the bounds test of the moved
      aim, so the swapped row and column bounds make no difference there. */
  lemma AimCheckOnSquareGrid(g: Grid, aim: Coord, x: int, y: int)
    requires g.Valid() && g.cols == g.rows
    ensures g.CheckIfCoordsOnGrid(aim, x, y) <==> InBounds(g.board, aim.0 + x, aim.1 + y)
  {
  }

  /** Writing a grid's own state string back into it changes nothing. */
  method RewriteOwnState(g: Grid) returns (ok: bool)
    requires g.Valid()
    modifies g, g.cells
    ensures g.Valid() && ok
    ensures g.board == old(g.board)
  {
    var state := g.GetGridState();
    ghost var before := g.board;
    FlattenLength(before, g.cols, g.rows);
    DecodeEncode(Flatten(before), Flatten(before));
    ok := g.SetGridState(state);
    FlattenInjective(g.board, before, g.cols, g.rows);
  }

  /** Reading a well-formed state string (one canonical decimal token per
      cell) into a grid, then rendering the grid, gives the string back. */
  method ReloadState(g: Grid, ghost vals: seq<Int32>, state: string) returns (ok: bool, again: string)
    requires g.Valid() && |vals| == g.cols * g.rows && state == Encode(vals)
    modifies g, g.cells
    ensures g.Valid() && ok && Flatten(g.board) == vals
    ensures again == state
  {
    FlattenLength(g.board, g.cols, g.rows);
    DecodeEncode(Flatten(g.board), vals);
    ok := g.SetGridState(state);
    again := g.GetGridState();
  }

  /** A board broadcast: one grid's state string read into another grid of the
      same size makes the second grid show the first grid's board. */
  method MirrorBoard(sender: Grid, display: Grid) returns (ok: bool)
    requires sender.Valid() && display.Valid() && sender != display && sender.cells != display.cells
    requires display.cols == sender.cols && display.rows == sender.rows
    modifies display, display.cells
    ensures display.Valid() && ok
    ensures display.board == sender.board
  {
    var state := sender.GetGridState();
    ghost var before := display.board;
    ok := display.SetGridState(state);
    FlattenLength(sender.board, sender.cols, sender.rows);
    FlattenLength(before, display.cols, display.rows);
    DecodeEncode(Flatten(before), Flatten(sender.board));
    FlattenInjective(display.board, sender.board, display.cols, display.rows);
  }
}
