/** The multiplayer game: the same board and scoring as a single-player game,
    but pieces come from a server-fed queue, and the board, score, lives and
    death are reported to the server. Messages to the server are collected in
    an outbox, in the order they are sent. */
module Multiplayer {
  import opened Text
  import opened Boards
  import opened Grids
  import opened Games

  // ---------------------------------------------------------------------------
  // The "name:score" entries of the scores list

  /** String.split(":") yields at least one piece: it fails only on a
      non-empty string made of colons alone. */
  predicate HasName(s: string)
  {
    !(|s| > 0 && forall i | 0 <= i < |s| :: s[i] == ':')
  }

  predicate AllHaveNames(list: seq<string>)
  {
    forall k | 0 <= k < |list| :: HasName(list[k])
  }

  /** The text before the first colon, or all of s when it has none. */
  function BeforeColon(s: string): (r: string)
    ensures |r| <= |s| && r == s[..|r|] && ':' !in r
    ensures |r| < |s| ==> s[|r|] == ':'
  {
    if s == [] || s[0] == ':' then [] else [s[0]] + BeforeColon(s[1..])
  }

  /** The user name of an entry: split(":")[0]. */
  function Name(s: string): string
    requires HasName(s)
  {
    BeforeColon(s)
  }

  /** No two entries carry the same name. */
  predicate UniqueNames(list: seq<string>)
    requires AllHaveNames(list)
  {
    forall i, j | 0 <= i < |list| && 0 <= j < |list| && Name(list[i]) == Name(list[j]) :: i == j
  }

  /** The last position below k whose entry carries the given name. */
  function LastMatch(list: seq<string>, name: string, k: nat): (r: Option<nat>)
    requires k <= |list| && AllHaveNames(list)
    ensures r.Some? ==> r.value < k && Name(list[r.value]) == name
    ensures r.Some? ==> forall i | r.value < i < k :: Name(list[i]) != name
    ensures r.None? ==> forall i | 0 <= i < k :: Name(list[i]) != name
  {
    if k == 0 then None
    else if Name(list[k - 1]) == name then Some(k - 1)
    else LastMatch(list, name, k - 1)
  }

  /** List.indexOf: the first position holding s. */
  function IndexOf(list: seq<string>, s: string): (r: nat)
    requires s in list
    ensures r < |list| && list[r] == s
    ensures forall i | 0 <= i < r :: list[i] != s
  {
    if list[0] == s then 0 else 1 + IndexOf(list[1..], s)
  }

  /** The scores list after a "name:score" update: the entry found for the
      name is replaced, or the update is appended when the name is new. */
  function Upserted(list: seq<string>, nameAndScore: string): seq<string>
    requires list != [] ==> HasName(nameAndScore) && AllHaveNames(list)
  {
    if list == [] then [nameAndScore]
    else
      match LastMatch(list, Name(nameAndScore), |list|)
      case None => list + [nameAndScore]
      case Some(k) => list[IndexOf(list, list[k]) := nameAndScore]
  }

  /** With distinct names, an update leaves exactly one entry for its name,
      which is the update itself; every other entry stays where it was; the
      list grows by one exactly when the name was absent; and the names stay
      distinct. */
  lemma UpsertedKeepsOneEntryPerName(list: seq<string>, nameAndScore: string)
    requires HasName(nameAndScore) && AllHaveNames(list) && UniqueNames(list)
    ensures var r := Upserted(list, nameAndScore);
      && AllHaveNames(r) && UniqueNames(r)
      && nameAndScore in r
      && (forall k | 0 <= k < |r| && Name(r[k]) == Name(nameAndScore) :: r[k] == nameAndScore)
      && (forall k | 0 <= k < |list| && Name(list[k]) != Name(nameAndScore) :: r[k] == list[k])
      && (|r| == |list| + 1 <==> forall k | 0 <= k < |list| :: Name(list[k]) != Name(nameAndScore))
      && (|r| == |list| || |r| == |list| + 1)
  {
    var r := Upserted(list, nameAndScore);
    var n := Name(nameAndScore);
    if list != [] {
      match LastMatch(list, n, |list|)
      case None =>
        assert r == list + [nameAndScore];
        assert r[|list|] == nameAndScore;
      case Some(k) =>
        var idx := IndexOf(list, list[k]);
        assert idx == k by {
          assert Name(list[idx]) == Name(list[k]);
        }
        assert r == list[k := nameAndScore];
        assert r[k] == nameAndScore;
        assert forall i | 0 <= i < |r| && i != k :: Name(r[i]) != n;
    } else {
      assert r[0] == nameAndScore;
    }
  }

  /** An entry whose name is not being updated survives the update. */
  lemma UpsertedKeepsOthers(list: seq<string>, nameAndScore: string, other: string)
    requires HasName(nameAndScore) && AllHaveNames(list) && UniqueNames(list)
    requires other in list && Name(other) != Name(nameAndScore)
    ensures other in Upserted(list, nameAndScore)
  {
    UpsertedKeepsOneEntryPerName(list, nameAndScore);
    var k :| 0 <= k < |list| && list[k] == other;
    assert Upserted(list, nameAndScore)[k] == other;
  }

  /** The ten requests for pieces sent together. */
  function PieceRequests(): (requests: seq<string>)
    ensures |requests| == 10 && forall k | 0 <= k < 10 :: requests[k] == "PIECE"
  {
    seq(10, _ => "PIECE")
  }

  /** The pieces requested once fewer than five remain queued. */
  function RequestsFor(queued: nat): (requests: seq<string>)
    ensures requests == PieceRequests() <==> queued < 5
    ensures requests == [] <==> queued >= 5
  {
    if queued < 5 then PieceRequests() else []
  }

  /** The score report that follows a clearing, sent only when cells were cleared. */
  function ScoreReport(cleared: set<Coord>, score: int): (report: seq<string>)
    ensures report == [] <==> cleared == {}
    ensures report != [] ==> report == ["SCORE " + IntToString(score)]
  {
    if cleared == {} then [] else ["SCORE " + IntToString(score)]
  }

  class MultiplayerGame {
    const game: Game
    /** Pieces dealt by the server, in arrival order. */
    var piecesQueue: seq<Piece>
    /** "name:score" entries, one per player. */
    var usersAndScores: seq<string>
    /** Every message sent to the server, in order. */
    var outbox: seq<string>

    ghost predicate Valid()
      reads game, game.grid, game.grid.cells
    {
      game.Valid()
    }

    /** A new multiplayer game: an empty board, an empty queue, no scores. */
    constructor (cols: nat, rows: nat)
      ensures Valid() && fresh(game) && fresh(game.grid) && fresh(game.grid.cells)
      ensures game.cols == cols && game.rows == rows && game.grid.board == Zeros(cols, rows)
      ensures game.lives == 3 && game.score == 0 && game.level == 0 && game.multiplier == 1
      ensures game.current == None && game.next == None
      ensures piecesQueue == [] && usersAndScores == [] && outbox == []
    {
      game := new Game(cols, rows);
      piecesQueue := [];
      usersAndScores := [];
      outbox := [];
    }

    /** Asks for ten pieces, puts the aim in the corner, starts the game loop
        and reports the board. The first two pieces arrive through
        UpdatePiecesQueue. */
    method Start()
      requires Valid()
      modifies this`outbox, game`aim, game`timer, game`loopSignals
      ensures Valid()
      ensures outbox == old(outbox) + PieceRequests() + ["BOARD " + Encode(Flatten(game.grid.board))]
      ensures game.aim == (0, 0) && game.timer == Scheduled(TimerDelay(game.level))
      ensures game.loopSignals == old(game.loopSignals) + [LoopSignal(false, false)]
    {
      SendPiecesRequest();
      game.aim := (0, 0);
      game.StartTimeLoop();
      game.loopSignals := game.loopSignals + [LoopSignal(false, false)];
      ReportBoard();
    }

    /** Records a "name:score" entry, replacing the entry of the same name. */
    method UpdateScores(nameAndScore: string)
      requires usersAndScores != [] ==> HasName(nameAndScore) && AllHaveNames(usersAndScores)
      modifies this`usersAndScores
      ensures usersAndScores == Upserted(old(usersAndScores), nameAndScore)
    {
      if usersAndScores == [] {
        usersAndScores := usersAndScores + [nameAndScore];
      } else {
        var updateNameAndScore := false;
        var nameAndScoreInList := false;
        var indexToReplace := 0;
        for k := 0 to |usersAndScores|
          invariant nameAndScoreInList == updateNameAndScore
          invariant updateNameAndScore <==> LastMatch(usersAndScores, Name(nameAndScore), k).Some?
          invariant updateNameAndScore ==>
            var m := LastMatch(usersAndScores, Name(nameAndScore), k).value;
            indexToReplace == IndexOf(usersAndScores, usersAndScores[m])
        {
          if Name(usersAndScores[k]) == Name(nameAndScore) {
            indexToReplace := IndexOf(usersAndScores, usersAndScores[k]);
            updateNameAndScore := true;
            nameAndScoreInList := true;
          }
        }
        if updateNameAndScore {
          usersAndScores := usersAndScores[indexToReplace := nameAndScore];
        }
        if !nameAndScoreInList {
          usersAndScores := usersAndScores + [nameAndScore];
        }
      }
    }

    /** Queues a piece from the server; the arrival that makes the queue two
        long deals those two as the current and next pieces. */
    method UpdatePiecesQueue(piece: Piece)
      modifies this`piecesQueue, game`current, game`next
      ensures piecesQueue == old(piecesQueue) + [piece]
      ensures |piecesQueue| == 2 ==> game.current == Some(piecesQueue[0]) && game.next == Some(piecesQueue[1])
      ensures |piecesQueue| != 2 ==> game.current == old(game.current) && game.next == old(game.next)
    {
      piecesQueue := piecesQueue + [piece];
      if |piecesQueue| == 2 {
        game.current := Some(piecesQueue[0]);
        game.next := Some(piecesQueue[1]);
      }
    }

    method SendPiecesRequest()
      modifies this`outbox
      ensures outbox == old(outbox) + PieceRequests()
    {
      for i := 0 to 10
        invariant outbox == old(outbox) + seq(i, _ => "PIECE")
      {
        outbox := outbox + ["PIECE"];
      }
    }

    /** Asks for more pieces once fewer than five are queued. */
    method CheckIfNeedToUpdateQueue()
      modifies this`outbox
      ensures outbox == old(outbox) + RequestsFor(|piecesQueue|)
    {
      if |piecesQueue| < 5 {
        SendPiecesRequest();
      }
    }

    /** Moves to the next pieces: the two head entries of the queue are
        dropped, the next piece becomes current and the new head becomes next;
        more pieces are requested when the queue runs low. */
    method NextFromQueue()
      requires |piecesQueue| >= 3
      modifies this`piecesQueue, this`outbox, game`current, game`next
      ensures piecesQueue == old(piecesQueue[2..])
      ensures game.current == old(game.next) && game.next == Some(old(piecesQueue[2]))
      ensures outbox == old(outbox) + RequestsFor(|piecesQueue|)
    {
      piecesQueue := piecesQueue[1..];
      piecesQueue := piecesQueue[1..];
      game.current := game.next;
      game.next := Some(piecesQueue[0]);
      CheckIfNeedToUpdateQueue();
    }

    /** Places the current piece centred on (x, y) when it fits, then runs the
        after-piece step; when it does not fit nothing changes. */
    method BlockClicked(x: int, y: int) returns (placed: bool)
      requires Valid() && game.current.Some? && game.cols == game.rows
      requires Fits(game.grid.board, x, y, game.current.value) ==> |piecesQueue| >= 3
      modifies this`piecesQueue, this`outbox, game`timer, game`loopSignals, game`score, game`multiplier, game`level, game`current, game`next, game.grid, game.grid.cells
      ensures Valid()
      ensures placed == Fits(old(game.grid.board), x, y, old(game.current.value))
      ensures !placed ==> game.grid.board == old(game.grid.board) && outbox == old(outbox) && unchanged(this, game)
      ensures placed ==>
        var b := Placed(old(game.grid.board), x, y, old(game.current.value));
        && game.grid.board == Cleared(b, game.rows)
        && game.score == old(game.score) + ClearScore(b, game.rows, old(game.multiplier))
        && game.multiplier == (if ClearedCells(b, game.rows) == {} then 1 else old(game.multiplier) + 1)
        && outbox == old(outbox) + ["BOARD " + Encode(Flatten(b))]
                     + ScoreReport(ClearedCells(b, game.rows), game.score)
                     + RequestsFor(|piecesQueue|)
        && piecesQueue == old(piecesQueue[2..])
        && game.current == old(game.next) && game.next == Some(old(piecesQueue[2]))
        && game.timer == Scheduled(TimerDelay(old(game.level)))
        && game.loopSignals == old(game.loopSignals) + [LoopSignal(false, false)]
    {
      placed := game.grid.CanPlayPiece(x, y, game.current.value);
      if placed {
        FitsOnBoard(game.grid.board, x, y, game.current.value);
        game.grid.PlayPiece(x, y, game.current.value);
        AfterPiece();
      }
    }

    /** BlockClicked at the keyboard aim. */
    method PlacePieceAtAim() returns (placed: bool)
      requires Valid() && game.current.Some? && game.cols == game.rows
      requires Fits(game.grid.board, game.aim.0, game.aim.1, game.current.value) ==> |piecesQueue| >= 3
      modifies this`piecesQueue, this`outbox, game`timer, game`loopSignals, game`score, game`multiplier, game`level, game`current, game`next, game.grid, game.grid.cells
      ensures Valid()
      ensures placed == Fits(old(game.grid.board), old(game.aim.0), old(game.aim.1), old(game.current.value))
      ensures !placed ==> game.grid.board == old(game.grid.board) && outbox == old(outbox) && unchanged(this, game)
      ensures placed ==>
        var b := Placed(old(game.grid.board), old(game.aim.0), old(game.aim.1), old(game.current.value));
        && game.grid.board == Cleared(b, game.rows)
        && game.score == old(game.score) + ClearScore(b, game.rows, old(game.multiplier))
        && game.multiplier == (if ClearedCells(b, game.rows) == {} then 1 else old(game.multiplier) + 1)
        && outbox == old(outbox) + ["BOARD " + Encode(Flatten(b))]
                     + ScoreReport(ClearedCells(b, game.rows), game.score)
                     + RequestsFor(|piecesQueue|)
        && piecesQueue == old(piecesQueue[2..])
        && game.current == old(game.next) && game.next == Some(old(piecesQueue[2]))
        && game.timer == Scheduled(TimerDelay(old(game.level)))
        && game.loopSignals == old(game.loopSignals) + [LoopSignal(false, false)]
    {
      placed := BlockClicked(game.aim.0, game.aim.1);
    }

    /** After a placement: report the board as placed, restart the game loop,
        clear full lines (reporting the new score when any cell is cleared)
        and move on to the next pieces. */
    method AfterPiece()
      requires Valid() && game.cols == game.rows && |piecesQueue| >= 3
      modifies this`piecesQueue, this`outbox, game`timer, game`loopSignals, game`score, game`multiplier, game`level, game`current, game`next, game.grid, game.grid.cells
      ensures Valid()
      ensures game.grid.board == Cleared(old(game.grid.board), game.rows)
      ensures game.score == old(game.score) + ClearScore(old(game.grid.board), game.rows, old(game.multiplier))
      ensures game.multiplier == if ClearedCells(old(game.grid.board), game.rows) == {} then 1 else old(game.multiplier) + 1
      ensures outbox == old(outbox) + ["BOARD " + Encode(Flatten(old(game.grid.board)))]
                        + ScoreReport(ClearedCells(old(game.grid.board), game.rows), game.score)
                        + RequestsFor(|piecesQueue|)
      ensures piecesQueue == old(piecesQueue[2..])
      ensures game.current == old(game.next) && game.next == Some(old(piecesQueue[2]))
      ensures game.timer == Scheduled(TimerDelay(old(game.level)))
      ensures game.loopSignals == old(game.loopSignals) + [LoopSignal(false, false)]
    {
      ReportBoard();
      game.RestartTimeLoop();
      ClearAndAdvance();
    }

    /** The second half of afterPiece: clear full lines, reporting the new
        score when any cell is cleared, then move on to the next pieces. */
    method ClearAndAdvance()
      requires Valid() && game.cols == game.rows && |piecesQueue| >= 3
      modifies this`piecesQueue, this`outbox, game`score, game`multiplier, game`level, game`current, game`next, game.grid, game.grid.cells
      ensures Valid()
      ensures game.grid.board == Cleared(old(game.grid.board), game.rows)
      ensures game.score == old(game.score) + ClearScore(old(game.grid.board), game.rows, old(game.multiplier))
      ensures game.multiplier == if ClearedCells(old(game.grid.board), game.rows) == {} then 1 else old(game.multiplier) + 1
      ensures outbox == old(outbox) + ScoreReport(ClearedCells(old(game.grid.board), game.rows), game.score)
                        + RequestsFor(|piecesQueue|)
      ensures piecesQueue == old(piecesQueue[2..])
      ensures game.current == old(game.next) && game.next == Some(old(piecesQueue[2]))
    {
      var _ := ClearLines();
      NextFromQueue();
    }

    /** Sends the board state to the server. */
    method ReportBoard()
      requires Valid()
      modifies this`outbox
      ensures outbox == old(outbox) + ["BOARD " + Encode(Flatten(game.grid.board))]
    {
      var state := game.grid.GetGridState();
      outbox := outbox + ["BOARD " + state];
    }

    /** clearLines with the multiplayer score update, which also reports the
        new score whenever cells are cleared. */
    method ClearLines() returns (blocksToClear: set<Coord>)
      requires Valid() && game.cols == game.rows
      modifies this`outbox, game`score, game`multiplier, game`level, game.grid, game.grid.cells
      ensures Valid()
      ensures blocksToClear == ClearedCells(old(game.grid.board), game.rows)
      ensures game.grid.board == Cleared(old(game.grid.board), game.rows)
      ensures game.score == old(game.score) + ClearScore(old(game.grid.board), game.rows, old(game.multiplier))
      ensures game.multiplier == if blocksToClear == {} then 1 else old(game.multiplier) + 1
      ensures outbox == old(outbox) + ScoreReport(blocksToClear, game.score)
    {
      blocksToClear := game.ClearLines();
      if blocksToClear != {} {
        outbox := outbox + ["SCORE " + IntToString(game.score)];
      }
    }

    /** One timer expiry. The multiplier resets. With no lives left the death
        is reported and the loop stops; otherwise a life is lost, the loop
        restarts and the remaining lives are reported. Either way the queue
        moves on to the next pieces. */
    method GameLoop()
      requires Valid() && |piecesQueue| >= 3
      modifies this`piecesQueue, this`outbox, game`multiplier, game`lives, game`timer, game`loopSignals, game`current, game`next
      ensures Valid()
      ensures game.multiplier == 1
      ensures game.current == old(game.next) && game.next == Some(old(piecesQueue[2]))
      ensures piecesQueue == old(piecesQueue[2..])
      ensures old(game.lives) == 0 ==>
        && game.lives == 0 && game.timer == Cancelled
        && game.loopSignals == old(game.loopSignals) + [LoopSignal(true, true)]
        && outbox == old(outbox) + ["DIE"] + RequestsFor(|piecesQueue|)
      ensures old(game.lives) > 0 ==>
        && game.lives == old(game.lives) - 1 && game.timer == Scheduled(TimerDelay(game.level))
        && game.loopSignals == old(game.loopSignals) + [LoopSignal(true, false)]
        && outbox == old(outbox) + RequestsFor(|piecesQueue|) + ["LIVES " + IntToString(game.lives)]
    {
      game.multiplier := 1;
      if game.lives - 1 == -1 {
        Die();
      } else {
        LoseLife();
      }
    }

    /** The no-lives branch of the game loop: report the death, stop the
        loop and move on to the next pieces. */
    method Die()
      requires Valid() && |piecesQueue| >= 3
      modifies this`piecesQueue, this`outbox, game`timer, game`loopSignals, game`current, game`next
      ensures Valid()
      ensures game.current == old(game.next) && game.next == Some(old(piecesQueue[2]))
      ensures piecesQueue == old(piecesQueue[2..])
      ensures game.timer == Cancelled
      ensures game.loopSignals == old(game.loopSignals) + [LoopSignal(true, true)]
      ensures outbox == old(outbox) + ["DIE"] + RequestsFor(|piecesQueue|)
    {
      outbox := outbox + ["DIE"];
      game.CancelTimer();
      game.loopSignals := game.loopSignals + [LoopSignal(true, true)];
      NextFromQueue();
    }

    /** The other branch of the game loop: move on to the next pieces,
        restart the loop, lose a life and report the lives left. */
    method LoseLife()
      requires Valid() && |piecesQueue| >= 3 && game.lives > 0
      modifies this`piecesQueue, this`outbox, game`lives, game`timer, game`loopSignals, game`current, game`next
      ensures Valid()
      ensures game.current == old(game.next) && game.next == Some(old(piecesQueue[2]))
      ensures piecesQueue == old(piecesQueue[2..])
      ensures game.lives == old(game.lives) - 1 && game.timer == Scheduled(TimerDelay(game.level))
      ensures game.loopSignals == old(game.loopSignals) + [LoopSignal(true, false)]
      ensures outbox == old(outbox) + RequestsFor(|piecesQueue|) + ["LIVES " + IntToString(game.lives)]
    {
      NextFromQueue();
      game.CancelTimer();
      game.loopSignals := game.loopSignals + [LoopSignal(true, false)];
      game.StartTimeLoop();
      game.lives := game.lives - 1;
      outbox := outbox + ["LIVES " + IntToString(game.lives)];
    }
  }
}
