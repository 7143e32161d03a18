/** The game state as a value, and the transitions the click handler, the
    result check and the computer's move apply to it. */
module Turns {
  import opened Board
  import opened Solver

  /** The board, the player whose mark the next move writes, and whether moves are accepted. */
  datatype GameState = GameState(board: seq<Cell>, current: Player, active: bool)

  /** Nine empty cells, X to move, game running: the state at load and after a restart. */
  const Initial: GameState :=
    GameState([Empty, Empty, Empty, Empty, Empty, Empty, Empty, Empty, Empty], X, true)

  /** Writing the current player's mark into cell `i`. */
  function Place(s: GameState, i: Index): GameState
    requires |s.board| == 9
  {
    s.(board := s.board[i := Taken(s.current)])
  }

  /** The result check after a move. A complete line ends the game, and so does a
      full board without one; either way the turn stays with the player who just
      moved. Otherwise the turn passes to the other player. */
  function Validate(s: GameState): (t: GameState)
    requires |s.board| == 9
    ensures t.board == s.board
    ensures HasCompleteLine(s.board) || Full(s.board) ==> !t.active && t.current == s.current
    ensures !HasCompleteLine(s.board) && !Full(s.board) ==> t.active == s.active && t.current == Other(s.current)
    ensures t.active ==> CheckWinner(t.board) == Undecided
  {
    if FirstCompleteFrom(s.board, 0).Some? then s.(active := false)
    else if Empty !in s.board then s.(active := false)
    else s.(current := Other(s.current))
  }

  /** The click handler's guard: a move on cell `i` goes ahead only on an empty
      cell of a running game, and never on O's turn against the computer. */
  predicate CanMove(s: GameState, i: Index, vsAI: bool)
    requires |s.board| == 9
  {
    s.board[i] == Empty && s.active && !(vsAI && s.current == O)
  }

  /** The computer's move: nothing once the game is over; otherwise the current
      player's mark goes on the cell the search picks, and the result is checked. */
  function ComputerTurn(s: GameState): GameState
    requires |s.board| == 9 && (s.active ==> !Full(s.board))
  {
    if !s.active then s else Validate(Place(s, BestMove(s.board)))
  }

  /** A click on cell `i`: the guard, the human move and its result check, then,
      against the computer and while the game runs, the computer's reply. */
  function Click(s: GameState, i: Index, vsAI: bool): GameState
    requires |s.board| == 9
  {
    if !CanMove(s, i, vsAI) then s
    else
      var t := Validate(Place(s, i));
      if vsAI && t.active then ComputerTurn(t) else t
  }

  /** What holds of every state the game reaches: nine cells, X has as many marks
      as O or one more; and while the game runs no line is complete, some cell is
      empty, and X has made one move more than O exactly when O is to move. */
  predicate Consistent(s: GameState)
  {
    |s.board| == 9 &&
    (Count(s.board, Taken(X)) == Count(s.board, Taken(O)) || Count(s.board, Taken(X)) == Count(s.board, Taken(O)) + 1) &&
    (s.active ==>
      CheckWinner(s.board) == Undecided &&
      Count(s.board, Taken(X)) == Count(s.board, Taken(O)) + (if s.current == O then 1 else 0))
  }

  lemma InitialIsConsistent()
    ensures Consistent(Initial)
    ensures Initial.active && Initial.current == X && forall j: Index :: Initial.board[j] == Empty
  {
    var b := Initial.board;
    assert forall j: Index :: b[j] == Empty;
    assert forall k :: 0 <= k < |WinningConditions| ==> b[WinningConditions[k].0] == Empty;
  }

  /** A move on an empty cell of a running consistent game, followed by the
      result check, leads to a consistent state. */
  lemma MoveKeepsConsistent(s: GameState, i: Index)
    requires Consistent(s) && s.active && s.board[i] == Empty
    ensures Consistent(Validate(Place(s, i)))
  {
  }

  lemma ComputerTurnKeepsConsistent(s: GameState)
    requires Consistent(s)
    ensures Consistent(ComputerTurn(s))
  {
  }

  /** Every click, accepted or not, keeps the game consistent. */
  lemma ClickKeepsConsistent(s: GameState, i: Index, vsAI: bool)
    requires Consistent(s)
    ensures Consistent(Click(s, i, vsAI))
  {
  }

  /** A rejected click changes nothing; an accepted one writes the current player's
      mark into cell `i`, never overwrites a taken cell, and touches at most one
      other cell: none between two humans, and against the computer the cell
      where it puts O after the human's X. */
  lemma ClickEffect(s: GameState, i: Index, vsAI: bool)
    requires |s.board| == 9
    ensures !CanMove(s, i, vsAI) ==> Click(s, i, vsAI) == s
    ensures CanMove(s, i, vsAI) ==>
      var t := Click(s, i, vsAI);
      |t.board| == 9 && t.board[i] == Taken(s.current) &&
      (forall j: Index :: s.board[j] != Empty ==> t.board[j] == s.board[j]) &&
      (!vsAI ==> t == Validate(Place(s, i))) &&
      (vsAI ==>
         s.current == X &&
         (t.board == s.board[i := Taken(X)] ||
          exists m: Index :: m != i && s.board[m] == Empty && t.board == s.board[i := Taken(X)][m := Taken(O)]))
  {
  }
}
