/**
 * The game object: a nine-cell board updated in place, the player whose
 * turn it is, and the append-only log of moves. The search methods use the
 * object's own board as scratch space and put every cell back before they
 * return.
 */
module Game {
  import opened Wrappers
  import opened Board
  import opened Minimax

  /** What a call to MakeMove did; the two failures are the cases in which
      the game prints an error message and changes nothing. */
  datatype MoveResult = Placed | Occupied | OutOfRange

  /** The log entry `t` names a cell of `b` that holds the logged mark. */
  predicate LoggedOn(t: string, b: seq<char>) {
    match ParseToken(t)
    case Some((p, m)) => IsMark(p) && m < |b| && b[m] == p
    case None => false
  }

  /** The cell a log entry names, or -1 for an entry that does not parse. */
  function LoggedCell(t: string): int {
    match ParseToken(t)
    case Some((_, m)) => m
    case None => -1
  }

  /** Conditions every reachable state meets: cells from the
      three-character alphabet, 'X' moving first so that 'X' has as many
      marks as 'O' when it is to move and one more when 'O' is, and a log
      with one entry per mark: as many entries as marks, each naming a cell
      that holds its mark, no two naming the same cell. The order of the
      entries is not constrained here; MakeMove's postcondition fixes it. */
  predicate Consistent(b: seq<char>, player: char, log: seq<string>) {
    && IsMark(player)
    && (forall i :: 0 <= i < |b| ==> IsCell(b[i]))
    && Count(b, X) == Count(b, O) + (if player == O then 1 else 0)
    && |log| == Count(b, X) + Count(b, O)
    && (forall k :: 0 <= k < |log| ==> LoggedOn(log[k], b))
    && (forall k, l :: 0 <= k < l < |log| ==> LoggedCell(log[k]) != LoggedCell(log[l]))
  }

  class TicTacToe {
    var board: array<char>
    var currentPlayer: char
    var moves: seq<string>

    /** The game's invariant: a nine-cell board in a consistent state. */
    ghost predicate Valid()
      reads this, board
    {
      board.Length == Size && Consistent(board[..], currentPlayer, moves)
    }

    /** A fresh game: nine empty cells, 'X' to move, nothing logged. */
    constructor ()
      ensures Valid() && fresh(board)
      ensures board[..] == seq(Size, _ => Empty)
      ensures currentPlayer == X && moves == []
    {
      board := new char[Size](_ => Empty);
      currentPlayer := X;
      moves := [];
      new;
      assert board[..] == seq(Size, _ => Empty);
    }

    /** Places the current player's mark on cell `move` when it is empty,
        logs `player:move` and passes the turn; an occupied cell or an index
        past the board changes nothing. */
    method MakeMove(move: nat) returns (result: MoveResult)
      requires Valid()
      modifies this, board
      ensures Valid() && board == old(board)
      ensures result == (if move >= Size then OutOfRange
                         else if old(board[move]) == Empty then Placed
                         else Occupied)
      ensures result == Placed ==>
        && board[..] == old(board[..])[move := old(currentPlayer)]
        && moves == old(moves) + [Token(old(currentPlayer), move)]
        && currentPlayer == Other(old(currentPlayer))
      ensures result != Placed ==>
        board[..] == old(board[..]) && moves == old(moves) && currentPlayer == old(currentPlayer)
    {
      if move >= board.Length {
        return OutOfRange;
      }
      if board[move] == Empty {
        ghost var b := board[..];
        board[move] := currentPlayer;
        assert board[..] == b[move := currentPlayer];
        PlaceCounts(b, move, currentPlayer);
        moves := moves + [Token(currentPlayer, move)];
        currentPlayer := Other(currentPlayer);
        forall k | 0 <= k < |moves| ensures LoggedOn(moves[k], board[..]) {
          if k < |moves| - 1 {
            assert LoggedOn(old(moves)[k], b);
          }
        }
        forall k, l | 0 <= k < l < |moves| ensures LoggedCell(moves[k]) != LoggedCell(moves[l]) {
          if l == |moves| - 1 {
            assert LoggedOn(old(moves)[k], b);
          }
        }
        result := Placed;
      } else {
        result := Occupied;
      }
    }

    /** Scans the winning combinations, stopping at the first one that `player`
        holds entirely. */
    method IsWinner(player: char) returns (won: bool)
      requires board.Length == Size
      ensures won == Wins(board[..], player)
    {
      LinesOnBoard();
      var k := 0;
      while k < |Lines|
        invariant 0 <= k <= |Lines|
        invariant forall q :: 0 <= q < k ==> !Holds(board[..], Lines[q], player)
      {
        var combination := Lines[k];
        var allMatch := true;
        var j := 0;
        while j < |combination|
          invariant 0 <= j <= |combination|
          invariant forall t :: 0 <= t < j ==> board[combination[t]] == player
        {
          if board[combination[j]] != player {
            allMatch := false;
            break;
          }
          j := j + 1;
        }
        if allMatch {
          assert Holds(board[..], Lines[k], player);
          return true;
        }
        k := k + 1;
      }
      return false;
    }

    /** True when no cell is empty. */
    method IsBoardFull() returns (full: bool)
      requires board.Length == Size
      ensures full == IsFull(board[..])
    {
      for i := 0 to board.Length
        invariant forall j :: 0 <= j < i ==> board[j] != Empty
      {
        if board[i] == Empty {
          return false;
        }
      }
      return true;
    }

    /** The indices of the empty cells, visited in ascending order. */
    method GetPossibleMoves() returns (possible: seq<nat>)
      requires board.Length == Size
      ensures possible == EmptyCells(board[..])
    {
      possible := [];
      for i := 0 to Size
        invariant possible == EmptyBelow(board[..], i)
      {
        if board[i] == Empty {
          possible := possible + [i];
        }
      }
    }

    /** Exhaustive minimax from the current board, 'O' maximizing when
        `isMaximizing`; every tentative mark is erased before the next one. */
    method Search(isMaximizing: bool) returns (score: int)
      requires board.Length == Size
      modifies board
      decreases EmptyCount(board[..]), 1
      ensures board[..] == old(board[..])
      ensures score == Score(old(board[..]), isMaximizing)
    {
      var xWins := IsWinner(X);
      if xWins {
        assert Score(board[..], isMaximizing) == -1;
        return -1;
      }
      var oWins := IsWinner(O);
      if oWins {
        assert Score(board[..], isMaximizing) == 1;
        return 1;
      }
      var full := IsBoardFull();
      if full {
        assert Score(board[..], isMaximizing) == 0;
        return 0;
      }
      ghost var b := board[..];
      var possible := GetPossibleMoves();
      assert AllEmpty(b, possible) by {
        EmptyCellsSpec(b);
      }
      if isMaximizing {
        // 'O' to move: the largest value over the moves, starting from -inf
        assert Fold(b, true, possible, Start(true)) == Score(b, true) by {
          EmptyCellsSpec(b);
        }
        var maxScore := Start(true);
        for i := 0 to |possible|
          invariant board[..] == b
          invariant MinusInf <= maxScore <= 1
          invariant Fold(b, true, possible[i..], maxScore) == Score(b, true)
        {
          var move := possible[i];
          var s := TryMove(move, true);
          assert Fold(b, true, possible[i..], maxScore) == Fold(b, true, possible[i + 1..], Better(true, s, maxScore)) by {
            assert possible[i..][1..] == possible[i + 1..];
          }
          maxScore := Better(true, s, maxScore);
        }
        return maxScore;
      } else {
        // 'X' to move: the smallest value over the moves, starting from +inf
        assert Fold(b, false, possible, Start(false)) == Score(b, false) by {
          EmptyCellsSpec(b);
        }
        var minScore := Start(false);
        for i := 0 to |possible|
          invariant board[..] == b
          invariant -1 <= minScore <= PlusInf
          invariant Fold(b, false, possible[i..], minScore) == Score(b, false)
        {
          var move := possible[i];
          var s := TryMove(move, false);
          assert Fold(b, false, possible[i..], minScore) == Fold(b, false, possible[i + 1..], Better(false, s, minScore)) by {
            assert possible[i..][1..] == possible[i + 1..];
          }
          minScore := Better(false, s, minScore);
        }
        return minScore;
      }
    }

    /** Places the mark of the side to move on the empty cell `move`, scores
        the resulting position with the other side to move, and empties the
        cell again. */
    method TryMove(move: nat, isMaximizing: bool) returns (s: int)
      requires board.Length == Size && move < Size && board[move] == Empty
      modifies board
      decreases EmptyCount(board[..]), 0
      ensures board[..] == old(board[..])
      ensures s == ChildScore(old(board[..]), move, isMaximizing)
    {
      ghost var b := board[..];
      var mark := Mover(isMaximizing);
      board[move] := mark;
      assert board[..] == b[move := mark];
      assert EmptyCount(board[..]) < EmptyCount(b) by {
        PlaceCounts(b, move, mark);
      }
      s := Search(!isMaximizing);
      board[move] := Empty;
      assert board[..] == b;
    }

    /** The move the engine plays for 'O': the first empty cell, in ascending
        order, whose minimax value is greatest; None when the board is full.
        The board is as before afterwards. */
    method GetBestMove() returns (bestMove: Option<nat>)
      requires Valid()
      modifies board
      ensures Valid()
      ensures board[..] == old(board[..])
      ensures bestMove == BestMove(old(board[..]))
      ensures bestMove.Some? ==> bestMove.value < Size && old(board[..])[bestMove.value] == Empty
    {
      ghost var b := board[..];
      var bestScore := MinusInf;
      bestMove := None;
      var possible := GetPossibleMoves();
      assert AllEmpty(b, possible) by {
        EmptyCellsSpec(b);
      }
      for i := 0 to |possible|
        invariant board[..] == b
        invariant BestFrom(b, possible[i..], bestScore, bestMove) == BestFrom(b, possible, MinusInf, None)
      {
        var move := possible[i];
        var score := TryMove(move, true);
        assert BestFrom(b, possible[i..], bestScore, bestMove)
            == if score > bestScore then BestFrom(b, possible[i + 1..], score, Some(move))
               else BestFrom(b, possible[i + 1..], bestScore, bestMove) by {
          assert score == MoveScore(b, move);
          assert possible[i..][1..] == possible[i + 1..];
        }
        if score > bestScore {
          bestScore := score;
          bestMove := Some(move);
        }
      }
      assert bestMove.Some? ==> bestMove.value < Size && b[bestMove.value] == Empty by {
        BestMoveSpec(b);
      }
    }
  }
}
