/**
 * One player's game: the state the App component keeps (tiles, move counter,
 * timer, flags, the loaded leaderboard and the name being typed) and the event
 * handlers that change it. Random draws, the stored leaderboard and the timer's
 * ticks are passed in; sound effects are not modelled.
 */
module Session {
  import opened Wrappers
  import opened Board
  import opened Ranking
  import opened Strings

  /**
   * shuffleBoard: a random walk of the empty cell from the solved board, one
   * slide per draw, then an upward slide if the walk came back to the start.
   */
  method ShuffleBoard(draws: seq<real>) returns (board: seq<int>)
    requires |draws| == ShuffleMoves && ValidDraws(draws)
    ensures board == Shuffled(draws)
    ensures IsBoard(board) && board != SolvedBoard()
  {
    var solved := SolvedBoard();
    var newTiles := new int[BoardSize](k => if 0 <= k < BoardSize then solved[k] else Empty);
    assert newTiles[..] == solved;
    var emptyIndex := FindIndex(newTiles, Empty);
    SolvedEmptyIndex();
    emptyIndex := WalkEmptyCell(newTiles, emptyIndex, draws);
    RepairIfSolved(newTiles);
    board := newTiles[..];
    ShuffledIsBoard(draws);
    ShuffledNotSolved(draws);
  }

  /**
   * The end of shuffleBoard: a board the walk left solved gets one more slide,
   * the empty cell (found again with indexOf) moving up one row.
   */
  method RepairIfSolved(newTiles: array<int>)
    requires newTiles.Length == BoardSize
    modifies newTiles
    ensures old(newTiles[..]) == SolvedBoard() ==> newTiles[..] == Slide(SolvedBoard(), LastCell, AboveLastCell)
    ensures old(newTiles[..]) != SolvedBoard() ==> newTiles[..] == old(newTiles[..])
  {
    var isAlreadySolved := newTiles[..] == SolvedBoard();
    if isAlreadySolved {
      SolvedEmptyIndex();
      var lastEmptyIndex := FindIndex(newTiles, Empty);
      var tileToSwapIndex := lastEmptyIndex - GridSize;
      newTiles[lastEmptyIndex], newTiles[tileToSwapIndex] := newTiles[tileToSwapIndex], newTiles[lastEmptyIndex];
      assert newTiles[..] == Slide(SolvedBoard(), LastCell, AboveLastCell);
    }
  }

  /** The loop of shuffleBoard: each draw picks one of the empty cell's neighbours to slide in. */
  method WalkEmptyCell(newTiles: array<int>, start: nat, draws: seq<real>) returns (emptyIndex: nat)
    requires newTiles.Length == BoardSize && start < BoardSize
    requires |draws| == ShuffleMoves && ValidDraws(draws)
    modifies newTiles
    ensures emptyIndex == End(start, WalkPath(start, draws))
    ensures newTiles[..] == ApplyPath(old(newTiles[..]), start, WalkPath(start, draws))
  {
    ghost var b := newTiles[..];
    ghost var walk: seq<nat> := [];
    emptyIndex := start;
    for i := 0 to ShuffleMoves
      invariant walk == WalkPath(start, draws[..i])
      invariant ValidPath(start, walk) && emptyIndex == End(start, walk)
      invariant newTiles[..] == ApplyPath(b, start, walk)
    {
      WalkStep(b, start, draws, i);
      var possibleMoves := Neighbours(emptyIndex);
      var moveIndex := possibleMoves[PickIndex(draws[i], |possibleMoves|)];
      ghost var before := newTiles[..];
      newTiles[emptyIndex], newTiles[moveIndex] := newTiles[moveIndex], newTiles[emptyIndex];
      assert newTiles[..] == Slide(before, emptyIndex, moveIndex);
      walk := walk + [moveIndex];
      emptyIndex := moveIndex;
    }
    assert draws[..ShuffleMoves] == draws;
  }

  /** One more draw extends the walk by the neighbour it picks, and the board by that slide. */
  lemma WalkStep(b: seq<int>, start: nat, draws: seq<real>, i: nat)
    requires |b| == BoardSize && start < BoardSize && ValidDraws(draws) && i < |draws|
    ensures ValidDraws(draws[..i]) && ValidDraws(draws[..i + 1])
    ensures var walk := WalkPath(start, draws[..i]);
      var e := End(start, walk);
      && e < BoardSize
      && var m := Step(e, draws[i]);
      && m == Neighbours(e)[PickIndex(draws[i], |Neighbours(e)|)]
      && WalkPath(start, draws[..i + 1]) == walk + [m]
      && ApplyPath(b, start, walk + [m]) == Slide(ApplyPath(b, start, walk), e, m)
  {
    var walk := WalkPath(start, draws[..i]);
    ValidPathEnd(start, walk);
    assert draws[..i + 1][..i] == draws[..i];
    var e := End(start, walk);
    var m := Step(e, draws[i]);
    assert (walk + [m])[..|walk|] == walk;
  }

  class GameSession {
    var tiles: seq<int>
    var moves: nat
    var time: nat
    var isSolved: bool
    var gameStarted: bool
    var isNewHighScore: bool
    var highScores: seq<Score>
    var playerName: string

    /**
     * The board is either not dealt yet or a permutation of 0..15; a solved
     * game shows the solved board and has stopped; a new high score is only
     * announced for a solved game.
     */
    ghost predicate Valid()
      reads this
    {
      && (tiles == [] || (|tiles| == BoardSize && IsBoard(tiles)))
      && (isSolved ==> tiles == SolvedBoard() && !gameStarted)
      && (isNewHighScore ==> isSolved)
    }

    /** The state checkWinCondition leaves: nothing more for it to do. */
    ghost predicate WinChecked()
      reads this
    {
      tiles == [] || isSolved || tiles != SolvedBoard()
    }

    /** The component's initial state, with the leaderboard read from storage. */
    constructor(storedScores: seq<Score>)
      ensures Valid()
      ensures tiles == [] && moves == 0 && time == 0
      ensures !isSolved && !gameStarted && !isNewHighScore
      ensures highScores == storedScores && playerName == ""
    {
      tiles := [];
      moves := 0;
      time := 0;
      isSolved := false;
      gameStarted := false;
      isNewHighScore := false;
      highScores := storedScores;
      playerName := "";
    }

    /** The shuffle run once when the component mounts. */
    method InitialShuffle(draws: seq<real>)
      requires Valid() && tiles == []
      requires |draws| == ShuffleMoves && ValidDraws(draws)
      modifies this`tiles
      ensures Valid() && tiles == Shuffled(draws)
    {
      tiles := ShuffleBoard(draws);
    }

    /** resetGame: a freshly shuffled board, counters at zero, flags cleared, name emptied. */
    method Reset(draws: seq<real>)
      requires |draws| == ShuffleMoves && ValidDraws(draws)
      modifies this`tiles, this`moves, this`time, this`isSolved, this`gameStarted,
        this`isNewHighScore, this`playerName
      ensures Valid() && WinChecked()
      ensures tiles == Shuffled(draws) && tiles != SolvedBoard()
      ensures moves == 0 && time == 0
      ensures !isSolved && !gameStarted && !isNewHighScore && playerName == ""
    {
      var board := ShuffleBoard(draws);
      tiles, moves, time := board, 0, 0;
      isSolved, gameStarted, isNewHighScore := false, false, false;
      playerName := "";
    }

    /**
     * handleTileClick: ignored on a solved game or on the empty cell; otherwise
     * the game starts, and the tile slides into the empty cell if it is a
     * Manhattan neighbour of it, counting one move.
     */
    method Click(index: nat)
      requires Valid() && index < |tiles|
      modifies this`tiles, this`moves, this`gameStarted
      ensures Valid()
      ensures old(isSolved) || old(tiles)[index] == Empty ==>
        tiles == old(tiles) && moves == old(moves) && gameStarted == old(gameStarted)
      ensures !old(isSolved) && old(tiles)[index] != Empty ==>
        && gameStarted
        && var e := IndexOf(old(tiles), Empty);
        && 0 <= e < |tiles| && old(tiles)[e] == Empty
        && (if Adjacent(index, e)
            then tiles == Slide(old(tiles), index, e) && moves == old(moves) + 1
            else tiles == old(tiles) && moves == old(moves))
    {
      if isSolved || tiles[index] == Empty {
        return;
      }
      if !gameStarted {
        gameStarted := true;
      }
      BoardHasEmpty(tiles);
      var emptyIndex := IndexOf(tiles, Empty);
      if Adjacent(index, emptyIndex) {
        var next := Slide(tiles, index, emptyIndex);
        assert IsBoard(next);
        tiles, moves := next, moves + 1;
      }
    }

    /**
     * checkWinCondition: on a dealt, unsolved board equal to the solved one, the
     * game is marked solved and stopped, and a new high score is announced when
     * the leaderboard has room or the result beats its last entry. Otherwise
     * nothing changes, so a second call is always a no-op.
     */
    method CheckWin()
      requires Valid()
      modifies this`isSolved, this`gameStarted, this`isNewHighScore
      ensures Valid() && WinChecked()
      ensures isSolved <==> old(isSolved) || (tiles != [] && tiles == SolvedBoard())
      ensures isSolved == old(isSolved) ==>
        gameStarted == old(gameStarted) && isNewHighScore == old(isNewHighScore)
      ensures isSolved != old(isSolved) ==>
        !gameStarted && (isNewHighScore <==> Qualifies(highScores, moves, time))
      ensures old(WinChecked()) ==>
        isSolved == old(isSolved) && gameStarted == old(gameStarted) && isNewHighScore == old(isNewHighScore)
    {
      if |tiles| == 0 || isSolved {
        return;
      }
      var solved := SolvedBoard();
      for i := 0 to |solved|
        invariant forall k :: 0 <= k < i ==> tiles[k] == solved[k]
      {
        if tiles[i] != solved[i] {
          return;
        }
      }
      assert tiles == solved;
      isSolved := true;
      gameStarted := false;
      if Qualifies(highScores, moves, time) {
        isNewHighScore := true;
      }
    }

    /** One second of the running timer: it only counts while a game is in progress. */
    method Tick()
      requires Valid()
      modifies this`time
      ensures Valid()
      ensures time == if old(gameStarted) && !old(isSolved) then old(time) + 1 else old(time)
    {
      if gameStarted && !isSolved {
        time := time + 1;
      }
    }

    /** The name field's change handler. */
    method EnterName(name: string)
      modifies this`playerName
      ensures playerName == name
    {
      playerName := name;
    }

    /**
     * handleSaveScore: nothing happens for a blank name; otherwise the trimmed
     * name with the current moves and time is ranked into the leaderboard read
     * from storage, the top five are written back and shown, and the game resets.
     */
    method SaveScore(stored: seq<Score>, draws: seq<real>) returns (written: Option<seq<Score>>)
      requires Valid()
      requires |draws| == ShuffleMoves && ValidDraws(draws)
      modifies this
      ensures Valid()
      ensures AllWhiteSpace(old(playerName)) ==> written == None && unchanged(this)
      ensures !AllWhiteSpace(old(playerName)) ==>
        && written == Some(TopScores(stored, Score(Trim(old(playerName)), old(moves), old(time))))
        && highScores == written.value
        && tiles == Shuffled(draws) && moves == 0 && time == 0
        && !isSolved && !gameStarted && !isNewHighScore && playerName == ""
    {
      TrimBlank(playerName);
      if Trim(playerName) == [] {
        return None;
      }
      var currentHighScores := stored;
      var newScore := Score(Trim(playerName), moves, time);
      var newHighScores := TopScores(currentHighScores, newScore);
      written := Some(newHighScores);
      highScores := newHighScores;
      Reset(draws);
    }
  }
}
