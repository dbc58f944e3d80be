/** The single-player game: the grid, the current and next pieces, the keyboard
    aim, score, level, lives and multiplier, and the repeating game-loop timer. */
module Games {
  import opened Text
  import opened Boards
  import opened Grids

  /** The game-loop period for a level: 12000 ms less 500 ms per level, never
      below 2500 ms. */
  function TimerDelay(level: int): (delay: int)
    ensures delay >= 2500
    ensures level >= 0 ==> delay <= 12000
    ensures delay == 2500 <==> level >= 19
    ensures delay > 2500 ==> delay == 12000 - 500 * level
  {
    var maxDelay := 2500;
    var change := 12000 - 500 * level;
    if change <= maxDelay then maxDelay else change
  }

  lemma TimerDelayAtStart()
    ensures TimerDelay(0) == 12000
  {
  }

  /** A higher level never gives a longer period. */
  lemma TimerDelayNonIncreasing(l1: int, l2: int)
    requires l1 <= l2
    ensures TimerDelay(l1) >= TimerDelay(l2)
  {
  }

  /** Points for clearing some lines: lines x 10 x blocks x multiplier. */
  function LineScore(lines: int, blocks: int, multiplier: int): int
  {
    lines * 10 * blocks * multiplier
  }

  /** The points one clear of board b earns at the given multiplier: nothing
      when no line is full. */
  function ClearScore(b: Board, rows: nat, multiplier: int): (points: int)
    ensures ClearedCells(b, rows) == {} ==> points == 0
  {
    var cells := ClearedCells(b, rows);
    if cells == {} then 0 else LineScore(LineCount(b, rows), |cells|, multiplier)
  }

  /** A clear earns points exactly when some line is full, and never loses any. */
  lemma ClearScorePositive(b: Board, cols: nat, rows: nat, multiplier: int)
    requires Shaped(b, cols, rows) && cols >= 1 && rows >= 1 && multiplier >= 1
    ensures ClearScore(b, rows, multiplier) >= 0
    ensures ClearScore(b, rows, multiplier) > 0 <==> LineCount(b, rows) > 0
  {
    ClearsCellsIffLines(b, cols, rows);
    var cells := ClearedCells(b, rows);
    if cells != {} {
      var l, n := LineCount(b, rows), |cells|;
      assert l * 10 * n > 0 by {
        assert l >= 1 && n >= 1;
        assert l * n >= 1;
      }
    }
  }

  /** Clearing a board that was just cleared earns nothing and changes nothing. */
  lemma SecondClearScoresNothing(b: Board, cols: nat, rows: nat, multiplier: int)
    requires Shaped(b, cols, rows) && cols >= 1 && rows >= 1
    ensures ClearScore(Cleared(b, rows), rows, multiplier) == 0
    ensures Cleared(Cleared(b, rows), rows) == Cleared(b, rows)
  {
    ClearIsIdempotent(b, cols, rows);
  }

  datatype Timer = Unscheduled | Scheduled(period: int) | Cancelled

  /** What the game-loop listener is told: whether a life was lost and whether
      the game is over. */
  datatype LoopSignal = LoopSignal(lifeLost: bool, gameOver: bool)

  class Game {
    const cols: nat
    const rows: nat
    const grid: Grid
    var score: int
    var level: int
    var lives: int
    var multiplier: int
    /** None until the game is started. */
    var current: Option<Piece>
    var next: Option<Piece>
    /** The keyboard aim; its first coordinate moves within the row count and
        its second within the column count. */
    var aim: Coord
    var timer: Timer
    /** Every call made to the game-loop listener, in order. */
    var loopSignals: seq<LoopSignal>

    ghost predicate Valid()
      reads this`score, this`level, this`lives, this`multiplier, this`aim, grid, grid.cells
    {
      && grid.Valid() && grid.cols == cols && grid.rows == rows
      && score >= 0 && level == score / 1000
      && lives >= 0 && multiplier >= 1
      && AimInRange()
    }

    ghost predicate AimInRange()
      reads this`aim
    {
      rows >= 1 && cols >= 1 ==> 0 <= aim.0 <= rows - 1 && 0 <= aim.1 <= cols - 1
    }

    /** A new game: an empty grid, three lives, no score, level 0, multiplier 1. */
    constructor (cols: nat, rows: nat)
      ensures Valid() && fresh(grid) && fresh(grid.cells)
      ensures this.cols == cols && this.rows == rows
      ensures grid.board == Zeros(cols, rows)
      ensures lives == 3 && score == 0 && level == 0 && multiplier == 1
      ensures current == None && next == None && aim == (0, 0)
      ensures timer == Unscheduled && loopSignals == []
    {
      this.cols := cols;
      this.rows := rows;
      grid := new Grid(cols, rows);
      lives := 3;
      score := 0;
      level := 0;
      multiplier := 1;
      current := None;
      next := None;
      aim := (0, 0);
      timer := Unscheduled;
      loopSignals := [];
    }

    /** Deals the first two pieces, puts the aim in the corner and starts the
        game loop. The pieces come from the random generator. */
    method Start(first: Piece, second: Piece)
      requires Valid()
      modifies this
      ensures Valid()
      ensures current == Some(first) && next == Some(second) && aim == (0, 0)
      ensures timer == Scheduled(TimerDelay(level))
      ensures loopSignals == old(loopSignals) + [LoopSignal(false, false)]
      ensures score == old(score) && level == old(level) && lives == old(lives) && multiplier == old(multiplier)
    {
      current := Some(first);
      next := Some(second);
      aim := (0, 0);
      StartTimeLoop();
      loopSignals := loopSignals + [LoopSignal(false, false)];
    }

    /** Schedules the game loop at the period of the current level. */
    method StartTimeLoop()
      modifies this`timer
      ensures timer == Scheduled(TimerDelay(level))
    {
      timer := Scheduled(TimerDelay(level));
    }

    method CancelTimer()
      modifies this`timer
      ensures timer == Cancelled
    {
      timer := Cancelled;
    }

    /** Places the current piece centred on (x, y) when it fits, then runs the
        after-piece step, taking the generated piece as the new next one. When
        it does not fit nothing changes. */
    method BlockClicked(x: int, y: int, generated: Piece) returns (placed: bool)
      requires Valid() && current.Some? && cols == rows
      modifies this, grid, grid.cells
      ensures Valid()
      ensures placed == Fits(old(grid.board), x, y, old(current.value))
      ensures !placed ==> grid.board == old(grid.board) && unchanged(this)
      ensures placed ==>
        var b := Placed(old(grid.board), x, y, old(current.value));
        && grid.board == Cleared(b, rows)
        && score == old(score) + ClearScore(b, rows, old(multiplier))
        && multiplier == (if ClearedCells(b, rows) == {} then 1 else old(multiplier) + 1)
        && current == old(next) && next == Some(generated)
        && timer == Scheduled(TimerDelay(old(level)))
        && loopSignals == old(loopSignals) + [LoopSignal(false, false)]
        && lives == old(lives) && aim == old(aim)
    {
      placed := grid.CanPlayPiece(x, y, current.value);
      if placed {
        FitsOnBoard(grid.board, x, y, current.value);
        grid.PlayPiece(x, y, current.value);
        AfterPiece(generated);
      }
    }

    /** BlockClicked at the keyboard aim. */
    method PlacePieceAtAim(generated: Piece) returns (placed: bool)
      requires Valid() && current.Some? && cols == rows
      modifies this, grid, grid.cells
      ensures Valid()
      ensures placed == Fits(old(grid.board), old(aim.0), old(aim.1), old(current.value))
      ensures !placed ==> grid.board == old(grid.board) && unchanged(this)
      ensures placed ==>
        var b := Placed(old(grid.board), old(aim.0), old(aim.1), old(current.value));
        && grid.board == Cleared(b, rows)
        && score == old(score) + ClearScore(b, rows, old(multiplier))
        && multiplier == (if ClearedCells(b, rows) == {} then 1 else old(multiplier) + 1)
        && current == old(next) && next == Some(generated)
        && timer == Scheduled(TimerDelay(old(level)))
        && loopSignals == old(loopSignals) + [LoopSignal(false, false)]
        && lives == old(lives) && aim == old(aim)
    {
      placed := BlockClicked(aim.0, aim.1, generated);
    }

    /** Moves the aim by (x, y) when the result stays on the grid. */
    method ChangeCurrentAim(x: int, y: int)
      requires Valid()
      modifies this`aim
      ensures Valid()
      ensures grid.CheckIfCoordsOnGrid(old(aim), x, y) ==> aim == (old(aim.0) + x, old(aim.1) + y)
      ensures !grid.CheckIfCoordsOnGrid(old(aim), x, y) ==> aim == old(aim)
    {
      if grid.CheckIfCoordsOnGrid(aim, x, y) {
        aim := (aim.0 + x, aim.1 + y);
      }
    }

    /** After a placement: restart the game loop at the period of the current
        level, clear full lines, and move the next piece up. */
    method AfterPiece(generated: Piece)
      requires Valid() && cols == rows
      modifies this, grid, grid.cells
      ensures Valid()
      ensures grid.board == Cleared(old(grid.board), rows)
      ensures score == old(score) + ClearScore(old(grid.board), rows, old(multiplier))
      ensures multiplier == if ClearedCells(old(grid.board), rows) == {} then 1 else old(multiplier) + 1
      ensures current == old(next) && next == Some(generated)
      ensures timer == Scheduled(TimerDelay(old(level)))
      ensures loopSignals == old(loopSignals) + [LoopSignal(false, false)]
      ensures lives == old(lives) && aim == old(aim)
    {
      RestartTimeLoop();
      var _ := ClearLines();
      current := next;
      next := Some(generated);
    }

    /** Cancels the running game loop, starts a new one at the period of the
        current level and tells the listener that no life was lost. */
    method RestartTimeLoop()
      modifies this`timer, this`loopSignals
      ensures timer == Scheduled(TimerDelay(level))
      ensures loopSignals == old(loopSignals) + [LoopSignal(false, false)]
    {
      CancelTimer();
      StartTimeLoop();
      loopSignals := loopSignals + [LoopSignal(false, false)];
    }

    /** The scan of clearLines: every column, then every row, is tested with
        ShouldLineBeCleared; the cells of each full line are collected into one
        set and the full lines are counted. */
    method FindFullLines() returns (blocksToClear: set<Coord>, clearedLines: int)
      requires grid.Valid() && grid.cols == grid.rows
      ensures blocksToClear == ClearedCells(grid.board, grid.rows)
      ensures clearedLines == LineCount(grid.board, grid.rows)
    {
      var rows, cols := grid.rows, grid.cols;
      ghost var b0 := grid.board;
      blocksToClear := {};
      clearedLines := 0;
      for i := 0 to rows
        invariant blocksToClear == FullColumnCells(b0, i, rows)
        invariant clearedLines == FullColumnsBelow(b0, i)
      {
        var currentColumn := seq(rows, j => (i, j));
        var complete := ShouldLineBeCleared(currentColumn);
        assert complete == FullColumn(b0, i) by {
          if complete {
            forall y | 0 <= y < rows ensures b0[i][y] != 0 {
              assert currentColumn[y] == (i, y);
            }
          } else {
            var k :| 0 <= k < rows && At(b0, currentColumn[k].0, currentColumn[k].1) == 0;
            assert b0[i][k] == 0;
          }
        }
        if complete {
          clearedLines := clearedLines + 1;
          assert (set k | 0 <= k < rows :: currentColumn[k]) == ColumnCells(i, rows) by {
            forall c | c in ColumnCells(i, rows) ensures c in set k | 0 <= k < rows :: currentColumn[k] {
              assert c == currentColumn[c.1];
            }
          }
          blocksToClear := blocksToClear + set k | 0 <= k < |currentColumn| :: currentColumn[k];
        }
      }
      for i := 0 to cols
        invariant blocksToClear == FullColumnCells(b0, |b0|, rows) + FullRowCells(b0, i)
        invariant clearedLines == FullColumnsBelow(b0, |b0|) + FullRowsBelow(b0, i)
      {
        var currentRow := seq(cols, j => (j, i));
        var complete := ShouldLineBeCleared(currentRow);
        assert complete == FullRow(b0, i) by {
          if complete {
            forall x | 0 <= x < cols ensures b0[x][i] != 0 {
              assert currentRow[x] == (x, i);
            }
          } else {
            var k :| 0 <= k < cols && At(b0, currentRow[k].0, currentRow[k].1) == 0;
            assert b0[k][i] == 0;
          }
        }
        if complete {
          clearedLines := clearedLines + 1;
          assert (set k | 0 <= k < cols :: currentRow[k]) == RowCells(i, |b0|) by {
            forall c | c in RowCells(i, |b0|) ensures c in set k | 0 <= k < cols :: currentRow[k] {
              assert c == currentRow[c.0];
            }
          }
          blocksToClear := blocksToClear + set k | 0 <= k < |currentRow| :: currentRow[k];
        }
      }
    }

    /** Finds every full column and row, scores them, then empties their
        cells; returns the emptied cells. */
    method ClearLines() returns (blocksToClear: set<Coord>)
      requires Valid() && cols == rows
      modifies this`score, this`multiplier, this`level, grid, grid.cells
      ensures Valid()
      ensures blocksToClear == ClearedCells(old(grid.board), rows)
      ensures grid.board == Cleared(old(grid.board), rows)
      ensures score == old(score) + ClearScore(old(grid.board), rows, old(multiplier))
      ensures multiplier == if blocksToClear == {} then 1 else old(multiplier) + 1
    {
      ghost var b0 := grid.board;
      var clearedLines;
      blocksToClear, clearedLines := FindFullLines();
      ScoreLines(clearedLines, |blocksToClear|);
      ClearedCellsOnBoard(b0, cols, rows);
      ClearBlocks(blocksToClear);
    }

    /** The last loop of clearLines: walks the collected cells, in no
        particular order, emptying each one. */
    method ClearBlocks(blocksToClear: set<Coord>)
      requires grid.Valid()
      requires forall c | c in blocksToClear :: InBounds(grid.board, c.0, c.1)
      modifies grid, grid.cells
      ensures grid.Valid()
      ensures grid.board == ZeroOut(old(grid.board), blocksToClear)
    {
      ghost var b0 := grid.board;
      ZeroOutNothing(b0);
      var remaining := blocksToClear;
      assert blocksToClear - remaining == {};
      while remaining != {}
        invariant grid.Valid() && remaining <= blocksToClear
        invariant grid.board == ZeroOut(b0, blocksToClear - remaining)
        decreases |remaining|
      {
        var c :| c in remaining;
        ZeroOutStep(b0, blocksToClear - remaining, c);
        assert blocksToClear - remaining + {c} == blocksToClear - (remaining - {c});
        ClearBlock(c);
        remaining := remaining - {c};
      }
      assert blocksToClear - {} == blocksToClear;
    }

    /** The scoring step of clearLines: when any cell is to be cleared, score
        the lines at the current multiplier, raise the multiplier and recompute
        the level; otherwise reset the multiplier. */
    method ScoreLines(clearedLines: nat, blocksCleared: nat)
      requires score >= 0 && level == score / 1000 && multiplier >= 1
      modifies this`score, this`multiplier, this`level
      ensures score >= 0 && level == score / 1000 && multiplier >= 1
      ensures score == old(score) + if blocksCleared == 0 then 0 else LineScore(clearedLines, blocksCleared, old(multiplier))
      ensures multiplier == if blocksCleared == 0 then 1 else old(multiplier) + 1
    {
      if blocksCleared != 0 {
        LineScoreNonNegative(clearedLines, blocksCleared, multiplier);
        UpdateScore(clearedLines, blocksCleared);
        multiplier := multiplier + 1;
        level := score / 1000;
      } else {
        multiplier := 1;
      }
    }

    /** Adds lines x 10 x blocks x multiplier to the score. */
    method UpdateScore(lines: int, blocksCleared: int)
      modifies this`score
      ensures score == old(score) + LineScore(lines, blocksCleared, multiplier)
    {
      score := score + lines * 10 * blocksCleared * multiplier;
    }

    /** Whether every cell of the line holds a block (off-grid cells read as -1,
        which counts as a block). */
    method ShouldLineBeCleared(line: seq<Coord>) returns (completeLine: bool)
      requires grid.Valid()
      ensures completeLine <==> forall k | 0 <= k < |line| :: At(grid.board, line[k].0, line[k].1) != 0
    {
      completeLine := true;
      for i := 0 to |line|
        invariant completeLine <==> forall k | 0 <= k < i :: At(grid.board, line[k].0, line[k].1) != 0
      {
        if grid.Get(line[i].0, line[i].1) == 0 {
          completeLine := false;
        }
      }
    }

    /** Empties one cell of the grid. */
    method ClearBlock(blockCoords: Coord)
      requires grid.Valid() && InBounds(grid.board, blockCoords.0, blockCoords.1)
      modifies grid, grid.cells
      ensures grid.Valid()
      ensures grid.board == Write(old(grid.board), blockCoords.0, blockCoords.1, 0)
    {
      grid.Set(blockCoords.0, blockCoords.1, 0);
    }

    /** Exchanges the current and next pieces. */
    method SwapCurrentPiece()
      modifies this`current, this`next
      ensures current == old(next) && next == old(current)
    {
      var currentPieceTemp := current;
      current := next;
      next := currentPieceTemp;
    }

    /** One timer expiry: the multiplier resets and the next piece moves up.
        With no lives left the loop stops and reports the game over; otherwise
        a life is lost and the loop restarts at the current level's period. */
    method GameLoop(generated: Piece)
      requires Valid()
      modifies this
      ensures Valid()
      ensures multiplier == 1 && current == old(next) && next == Some(generated)
      ensures old(lives) == 0 ==>
        && lives == 0 && timer == Cancelled
        && loopSignals == old(loopSignals) + [LoopSignal(true, true)]
      ensures old(lives) > 0 ==>
        && lives == old(lives) - 1 && timer == Scheduled(TimerDelay(level))
        && loopSignals == old(loopSignals) + [LoopSignal(true, false)]
      ensures score == old(score) && level == old(level) && aim == old(aim)
    {
      multiplier := 1;
      if lives - 1 == -1 {
        CancelTimer();
        loopSignals := loopSignals + [LoopSignal(true, true)];
        current := next;
        next := Some(generated);
      } else {
        current := next;
        next := Some(generated);
        CancelTimer();
        loopSignals := loopSignals + [LoopSignal(true, false)];
        StartTimeLoop();
        lives := lives - 1;
      }
    }
  }

  lemma ClearedCellsOnBoard(b: Board, cols: nat, rows: nat)
    requires Shaped(b, cols, rows)
    ensures forall c | c in ClearedCells(b, rows) :: InBounds(b, c.0, c.1)
  {
    ClearedCellsMembers(b, cols, rows);
  }

  lemma LineScoreNonNegative(lines: int, blocks: int, multiplier: int)
    requires lines >= 0 && blocks >= 0 && multiplier >= 1
    ensures LineScore(lines, blocks, multiplier) >= 0
  {
    assert lines * 10 * blocks >= 0;
  }

  /** Swapping twice puts both pieces back. */
  method SwapTwice(game: Game)
    modifies game
    ensures game.current == old(game.current) && game.next == old(game.next)
  {
    game.SwapCurrentPiece();
    game.SwapCurrentPiece();
  }
}
