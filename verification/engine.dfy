/** The game as the page runs it: one nine-cell board mutated in place, the
    player to move, whether the game runs, and the play mode. Each method is one
    of the page's handlers with its presentation and sound left out. */
module Engine {
  import opened Board
  import opened Solver
  import opened Turns

  class Game {
    var board: array<Cell>
    var currentPlayer: Player
    var gameActive: bool
    /** True when O's moves are made by the computer. */
    var isVsAI: bool

    ghost predicate Valid()
      reads this
    {
      board.Length == 9
    }

    /** The state as a value, for the specifications. */
    function State(): GameState
      reads this, board
    {
      GameState(board[..], currentPlayer, gameActive)
    }

    constructor (vsAI: bool)
      ensures Valid() && fresh(board)
      ensures State() == Initial && isVsAI == vsAI
    {
      board := new Cell[9](_ => Empty);
      currentPlayer := X;
      gameActive := true;
      isVsAI := vsAI;
      new;
      assert board[..] == Initial.board;
    }

    /** Writes the current player's mark into cell `i` and nowhere else. */
    method CellPlayed(i: Index)
      requires Valid()
      modifies board
      ensures Valid()
      ensures board[i] == Taken(currentPlayer)
      ensures forall j :: 0 <= j < 9 && j != i ==> board[j] == old(board[j])
      ensures State() == Place(old(State()), i)
    {
      board[i] := Taken(currentPlayer);
    }

    /** Scans the lines in table order and stops at the first complete one, whose
        position in the table it reports (`winningLine`). The game ends on a
        complete line or a full board (`ended`); otherwise the turn passes to the
        other player. */
    method ResultValidation() returns (ended: bool, winningLine: Option<nat>)
      requires Valid()
      modifies this`currentPlayer, this`gameActive
      ensures Valid()
      ensures winningLine == FirstCompleteFrom(board[..], 0)
      ensures ended <==> HasCompleteLine(board[..]) || Full(board[..])
      ensures State() == Validate(old(State()))
    {
      var roundWon := false;
      winningLine := None;
      var i := 0;
      while i < |WinningConditions|
        invariant 0 <= i <= |WinningConditions|
        invariant FirstCompleteFrom(board[..], i) == FirstCompleteFrom(board[..], 0)
      {
        var (a, b, c) := WinningConditions[i];
        if board[a] != Empty && board[a] == board[b] && board[a] == board[c] {
          roundWon := true;
          winningLine := Some(i);
          break;
        }
        i := i + 1;
      }

      if roundWon {
        gameActive := false;
        return true, winningLine;
      }

      if Empty !in board[..] {
        gameActive := false;
        return true, winningLine;
      }

      currentPlayer := Other(currentPlayer);
      return false, winningLine;
    }

    /** Nine empty cells on a fresh board, X to move, game running, whatever came
        before; so restarting twice is the same as restarting once. */
    method Restart()
      modifies this
      ensures Valid() && fresh(board)
      ensures State() == Initial && isVsAI == old(isVsAI)
      ensures Consistent(State())
    {
      gameActive := true;
      currentPlayer := X;
      board := new Cell[9](_ => Empty);
      assert board[..] == Initial.board;
      InitialIsConsistent();
    }

    /** Full-depth search on the shared board: O tries every empty cell when
        maximizing, X when minimizing. The result is the game value, and every
        trial is undone, so the board is left as it was found. */
    method Minimax(maximizing: bool) returns (score: int)
      requires Valid()
      modifies board
      ensures board[..] == old(board[..])
      ensures score == GameValue(board[..], maximizing)
      ensures score in {-10, 0, 10}
      decreases Count(board[..], Empty), 1
    {
      var result := CheckWinner(board[..]);
      if result != Undecided {
        return Score(result);
      }

      ghost var b0 := board[..];
      if maximizing {
        var best := MinusInfinity;
        for i := 0 to 9
          invariant board[..] == b0
          invariant best == Sentinel(true) || best in {-10, 0, 10}
          invariant ScanReplies(b0, Replies(b0, true), true, i, best) == GameValue(b0, true)
        {
          if board[i] == Empty {
            var reply := TryMark(i, true);
            RepliesAt(b0, true, i);
            best := Max(best, reply);
          }
        }
        return best;
      } else {
        var best := PlusInfinity;
        for i := 0 to 9
          invariant board[..] == b0
          invariant best == Sentinel(false) || best in {-10, 0, 10}
          invariant ScanReplies(b0, Replies(b0, false), false, i, best) == GameValue(b0, false)
        {
          if board[i] == Empty {
            var reply := TryMark(i, false);
            RepliesAt(b0, false, i);
            best := Min(best, reply);
          }
        }
        return best;
      }
    }

    /** One trial of the search: puts the mover's mark on the empty cell `i`,
        searches on with the other side to move, and empties the cell again. */
    method TryMark(i: Index, maximizing: bool) returns (reply: int)
      requires Valid() && board[i] == Empty
      modifies board
      ensures board[..] == old(board[..])
      ensures reply == Reply(board[..], i, maximizing)
      decreases Count(board[..], Empty), 0
    {
      ghost var b0 := board[..];
      board[i] := Taken(Mark(maximizing));
      assert board[..] == b0[i := Taken(Mark(maximizing))];
      FillingDecreasesEmptyCount(b0, i, Mark(maximizing));
      reply := Minimax(!maximizing);
      board[i] := Empty;
      assert board[..] == b0;
    }

    /** The search loop of the computer's move: scores O on every empty cell in
        index order and keeps the first strictly best one. Every trial is undone,
        so the board comes back unchanged. */
    method ChooseMove() returns (move: Index)
      requires Valid() && Empty in board[..]
      modifies board
      ensures board[..] == old(board[..])
      ensures move == BestMove(board[..])
    {
      ghost var b0 := board[..];
      var bestScore := MinusInfinity;
      var chosen: Option<Index> := None;
      for i := 0 to 9
        invariant board[..] == b0
        invariant chosen.Some? ==> chosen.value < i && b0[chosen.value] == Empty && bestScore == Replies(b0, true)[chosen.value]
        invariant chosen.None? ==> bestScore == MinusInfinity
        invariant ChooseFrom(b0, Replies(b0, true), i, bestScore, chosen) == ChooseFrom(b0, Replies(b0, true), 0, MinusInfinity, None)
      {
        if board[i] == Empty {
          var score := TryMark(i, true);
          RepliesAt(b0, true, i);
          if score > bestScore {
            bestScore := score;
            chosen := Some(i);
          }
        }
      }
      move := chosen.value;
    }

    /** Does nothing once the game is over. Otherwise plays the current player's
        mark on the cell the search chose and checks the result. */
    method ComputerMove()
      requires Valid() && (gameActive ==> Empty in board[..])
      modifies this`currentPlayer, this`gameActive, board
      ensures Valid()
      ensures !old(gameActive) ==> State() == old(State())
      ensures old(gameActive) ==>
        board[..] == old(board[..])[BestMove(old(board[..])) := Taken(old(currentPlayer))]
      ensures State() == ComputerTurn(old(State()))
      ensures Consistent(old(State())) ==> Consistent(State())
    {
      ghost var s0 := State();
      if !gameActive {
        return;
      }

      var move := ChooseMove();
      CellPlayed(move);
      var ended, winningLine := ResultValidation();
      if Consistent(s0) {
        ComputerTurnKeepsConsistent(s0);
      }
    }

    /** A click on cell `i`: ignored on a taken cell, after the game ended, or on
        O's turn against the computer; otherwise the current player's mark is
        played and checked, and against the computer, while the game still runs,
        the computer answers at once. */
    method CellClick(i: Index)
      requires Valid()
      modifies this`currentPlayer, this`gameActive, board
      ensures Valid()
      ensures State() == Click(old(State()), i, isVsAI)
      ensures Consistent(old(State())) ==> Consistent(State())
    {
      ghost var s0 := State();
      if Consistent(s0) {
        ClickKeepsConsistent(s0, i, isVsAI);
      }
      if board[i] != Empty || !gameActive || (isVsAI && currentPlayer == O) {
        return;
      }

      CellPlayed(i);
      var ended, winningLine := ResultValidation();
      if ended {
        return;
      }

      if isVsAI && gameActive {
        ComputerMove();
      }
    }
  }
}
