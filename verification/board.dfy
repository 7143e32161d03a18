/** The 3x3 board of the game: its cells, the fixed table of winning lines
    and the read-only scans that decide whether a round is over. */
module Board {

  datatype Option<T> = None | Some(value: T)

  datatype Player = X | O

  /** A cell holds the empty string or the mark of the player who took it. */
  datatype Cell = Empty | Taken(owner: Player)

  /** The player who moves after `p`. */
  function Other(p: Player): (q: Player)
    ensures q != p
  {
    if p == X then O else X
  }

  /** A position on the board, numbered 0..8 row by row. */
  type Index = i: nat | i < 9

  type Line = (Index, Index, Index)

  /** Rows, then columns, then the two diagonals, in the order the scans visit them. */
  const WinningConditions: seq<Line> := [
    (0, 1, 2), (3, 4, 5), (6, 7, 8),
    (0, 3, 6), (1, 4, 7), (2, 5, 8),
    (0, 4, 8), (2, 4, 6)
  ]

  /** A line is complete when its first cell is taken and the other two hold the same mark. */
  predicate Completes(b: seq<Cell>, line: Line)
    requires |b| == 9
  {
    b[line.0] != Empty && b[line.0] == b[line.1] && b[line.0] == b[line.2]
  }

  predicate HasCompleteLine(b: seq<Cell>)
    requires |b| == 9
  {
    exists k :: 0 <= k < |WinningConditions| && Completes(b, WinningConditions[k])
  }

  /** How many cells hold `c`. */
  function Count(b: seq<Cell>, c: Cell): nat
  {
    multiset(b)[c]
  }

  /** No cell is empty any more. */
  predicate Full(b: seq<Cell>)
  {
    Empty !in b
  }

  /** The position, in table order, of the first complete line at or after `k`. */
  function FirstCompleteFrom(b: seq<Cell>, k: nat): (r: Option<nat>)
    requires |b| == 9 && k <= |WinningConditions|
    ensures r.Some? ==> k <= r.value < |WinningConditions| && Completes(b, WinningConditions[r.value])
    ensures forall j :: k <= j < (if r.Some? then r.value else |WinningConditions|) ==>
              !Completes(b, WinningConditions[j])
    decreases |WinningConditions| - k
  {
    if k == |WinningConditions| then None
    else if Completes(b, WinningConditions[k]) then Some(k)
    else FirstCompleteFrom(b, k + 1)
  }

  /** What the result check reports: the owner of a complete line, a tie, or nothing yet. */
  datatype Outcome = Won(winner: Player) | Tie | Undecided

  /** The winner is the owner of the first complete line in table order; a board
      without a complete line is a tie exactly when it is full. A full board that
      holds a complete line is therefore a win, never a tie. */
  function CheckWinner(b: seq<Cell>): (r: Outcome)
    requires |b| == 9
    ensures r.Won? <==> HasCompleteLine(b)
    ensures r.Won? ==> exists k :: 0 <= k < |WinningConditions| && Completes(b, WinningConditions[k]) &&
                          b[WinningConditions[k].0] == Taken(r.winner) &&
                          forall j :: 0 <= j < k ==> !Completes(b, WinningConditions[j])
    ensures r == Tie <==> !HasCompleteLine(b) && Full(b)
    ensures r == Undecided <==> !HasCompleteLine(b) && !Full(b)
  {
    match FirstCompleteFrom(b, 0)
    case Some(k) => Won(b[WinningConditions[k].0].owner)
    case None => if Empty !in b then Tie else Undecided
  }

  /** The leaf scores of the search: a win for O is worth 10, a win for X -10, a tie 0. */
  function Score(o: Outcome): (v: int)
    requires !o.Undecided?
    ensures v in {-10, 0, 10}
    ensures v > 0 <==> o == Won(O)
    ensures v < 0 <==> o == Won(X)
  {
    match o
    case Won(X) => -10
    case Won(O) => 10
    case Tie => 0
  }
}
