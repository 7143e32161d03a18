/** The computer opponent: a full-depth minimax over the remaining game tree.
    Leaves are scored from O's side, so O maximizes and X minimizes. */
module Solver {
  import opened Board

  /** Integer stand-ins for the -Infinity and +Infinity starting values of the search;
      every real score lies strictly between them. */
  const MinusInfinity: int := -100
  const PlusInfinity: int := 100

  /** The value a scan over replies starts from. */
  function Sentinel(maximizing: bool): int
  {
    if maximizing then MinusInfinity else PlusInfinity
  }

  /** The mark the side to move tries: O when maximizing, X when minimizing. */
  function Mark(maximizing: bool): Player
  {
    if maximizing then O else X
  }

  /** `v` is at least as good as `w` for the side to move. */
  predicate AtLeastAsGood(maximizing: bool, v: int, w: int)
  {
    if maximizing then v >= w else v <= w
  }

  function Max(a: int, b: int): int { if a < b then b else a }
  function Min(a: int, b: int): int { if a < b then a else b }

  /** The value of the game from board `b` with O to move when `maximizing`
      and X to move otherwise. A decided board is worth its leaf score. */
  function GameValue(b: seq<Cell>, maximizing: bool): (v: int)
    requires |b| == 9
    ensures v in {-10, 0, 10}
    decreases Count(b, Empty), 1, 0
  {
    var outcome := CheckWinner(b);
    if outcome != Undecided then Score(outcome)
    else ScanReplies(b, Replies(b, maximizing), maximizing, 0, Sentinel(maximizing))
  }

  /** Marking an empty cell leaves one empty cell fewer. */
  lemma FillingDecreasesEmptyCount(b: seq<Cell>, j: Index, p: Player)
    requires |b| == 9 && b[j] == Empty
    ensures Count(b[j := Taken(p)], Empty) == Count(b, Empty) - 1
  {
  }

  /** The value of the reply that puts the mover's mark on the empty cell `j`. */
  function Reply(b: seq<Cell>, j: Index, maximizing: bool): int
    requires |b| == 9 && b[j] == Empty
    decreases Count(b, Empty), 0, 0
  {
    FillingDecreasesEmptyCount(b, j, Mark(maximizing));
    GameValue(b[j := Taken(Mark(maximizing))], !maximizing)
  }

  /** The reply values of the cells `i`..8, one per cell in index order; a taken
      cell has no reply and holds 0 as a filler the scans never read. */
  function RepliesFrom(b: seq<Cell>, maximizing: bool, i: nat): (r: seq<int>)
    requires |b| == 9 && i <= 9
    ensures |r| == 9 - i
    ensures forall k :: 0 <= k < |r| ==> r[k] in {-10, 0, 10}
    decreases Count(b, Empty), 0, 9 - i
  {
    if i == 9 then []
    else [if b[i] == Empty then Reply(b, i, maximizing) else 0] + RepliesFrom(b, maximizing, i + 1)
  }

  function Replies(b: seq<Cell>, maximizing: bool): seq<int>
    requires |b| == 9
    decreases Count(b, Empty), 0, 10
  {
    RepliesFrom(b, maximizing, 0)
  }

  lemma {:induction false} RepliesFromAt(b: seq<Cell>, maximizing: bool, i: nat, j: Index)
    requires |b| == 9 && i <= j && b[j] == Empty
    ensures RepliesFrom(b, maximizing, i)[j - i] == Reply(b, j, maximizing)
    decreases j - i
  {
    if i < j {
      RepliesFromAt(b, maximizing, i + 1, j);
    }
  }

  /** Entry `j` of the reply values is the value of the reply on the empty cell `j`. */
  lemma RepliesAt(b: seq<Cell>, maximizing: bool, j: Index)
    requires |b| == 9 && b[j] == Empty
    ensures Replies(b, maximizing)[j] == Reply(b, j, maximizing)
  {
    RepliesFromAt(b, maximizing, 0, j);
  }

  predicate AreScores(vals: seq<int>)
  {
    |vals| == 9 && forall k :: 0 <= k < 9 ==> vals[k] in {-10, 0, 10}
  }

  /** The search loop of one node: folds the values `vals` of the empty cells
      `i`..8, in index order, into `best` with Math.max or Math.min. */
  function ScanReplies(b: seq<Cell>, vals: seq<int>, maximizing: bool, i: nat, best: int): (v: int)
    requires |b| == 9 && AreScores(vals) && i <= 9
    requires best == Sentinel(maximizing) || best in {-10, 0, 10}
    ensures v in {-10, 0, 10} || (v == best && forall j :: i <= j < 9 ==> b[j] != Empty)
    decreases 9 - i
  {
    if i == 9 then best
    else if b[i] == Empty then
      ScanReplies(b, vals, maximizing, i + 1, if maximizing then Max(best, vals[i]) else Min(best, vals[i]))
    else ScanReplies(b, vals, maximizing, i + 1, best)
  }

  /** The fold picks the best of its start value and the values it visits, and
      returns either its start value or one of those values. */
  lemma {:induction false} ScanIsExtremum(b: seq<Cell>, vals: seq<int>, maximizing: bool, i: nat, best: int)
    requires |b| == 9 && AreScores(vals) && i <= 9
    requires best == Sentinel(maximizing) || best in {-10, 0, 10}
    ensures var v := ScanReplies(b, vals, maximizing, i, best);
      AtLeastAsGood(maximizing, v, best) &&
      (forall j :: i <= j < 9 && b[j] == Empty ==> AtLeastAsGood(maximizing, v, vals[j])) &&
      (v == best || exists j :: i <= j < 9 && b[j] == Empty && v == vals[j])
    decreases 9 - i
  {
    if i < 9 {
      if b[i] == Empty {
        ScanIsExtremum(b, vals, maximizing, i + 1, if maximizing then Max(best, vals[i]) else Min(best, vals[i]));
      } else {
        ScanIsExtremum(b, vals, maximizing, i + 1, best);
      }
    }
  }

  /** The side to move does at least as well as its reply on any one empty cell. */
  lemma ValueBoundsReply(b: seq<Cell>, maximizing: bool, j: Index)
    requires |b| == 9 && CheckWinner(b) == Undecided && b[j] == Empty
    ensures AtLeastAsGood(maximizing, GameValue(b, maximizing), Reply(b, j, maximizing))
  {
    GameValueIsMinimax(b, maximizing);
  }

  /** Minimax: a decided board is worth its leaf score; otherwise the value is
      the best reply for the side to move, and some empty cell attains it. */
  lemma GameValueIsMinimax(b: seq<Cell>, maximizing: bool)
    requires |b| == 9
    ensures CheckWinner(b) != Undecided ==> GameValue(b, maximizing) == Score(CheckWinner(b))
    ensures CheckWinner(b) == Undecided ==>
      (forall j: Index :: b[j] == Empty ==> AtLeastAsGood(maximizing, GameValue(b, maximizing), Reply(b, j, maximizing))) &&
      (exists j: Index :: b[j] == Empty && GameValue(b, maximizing) == Reply(b, j, maximizing))
  {
    if CheckWinner(b) == Undecided {
      var vals := Replies(b, maximizing);
      ScanIsExtremum(b, vals, maximizing, 0, Sentinel(maximizing));
      var v := GameValue(b, maximizing);
      forall j: Index | b[j] == Empty
        ensures AtLeastAsGood(maximizing, v, Reply(b, j, maximizing))
      {
        RepliesAt(b, maximizing, j);
      }
      var j :| 0 <= j < 9 && b[j] == Empty && v == vals[j];
      RepliesAt(b, maximizing, j);
    }
  }

  /** The search loop of the computer's move, over the scores `scores` of the
      cells: visits cells `i`..8 in index order and replaces the best (score,
      move) pair only on an empty cell with a strictly greater score. */
  function ChooseFrom(b: seq<Cell>, scores: seq<int>, i: nat, bestScore: int, move: Option<Index>): (r: (int, Option<Index>))
    requires |b| == 9 && AreScores(scores) && i <= 9
    requires move.Some? ==> move.value < i && b[move.value] == Empty && bestScore == scores[move.value]
    requires move.None? ==> bestScore == MinusInfinity
    ensures r.0 >= bestScore
    ensures r.1.Some? ==> b[r.1.value] == Empty && r.0 == scores[r.1.value]
    ensures r.1 != move ==> r.1.Some? && i <= r.1.value && r.0 > bestScore
    ensures r.1.None? ==> forall j :: i <= j < 9 ==> b[j] != Empty
    decreases 9 - i
  {
    if i == 9 then (bestScore, move)
    else if b[i] == Empty && scores[i] > bestScore then ChooseFrom(b, scores, i + 1, scores[i], Some(i))
    else ChooseFrom(b, scores, i + 1, bestScore, move)
  }

  /** No empty cell from `i` on scores above the fold's result, and every empty
      cell the fold passed over before its chosen cell scores strictly below it. */
  lemma {:induction false} ChooseFromIsBest(b: seq<Cell>, scores: seq<int>, i: nat, bestScore: int, move: Option<Index>)
    requires |b| == 9 && AreScores(scores) && i <= 9
    requires move.Some? ==> move.value < i && b[move.value] == Empty && bestScore == scores[move.value]
    requires move.None? ==> bestScore == MinusInfinity
    ensures var r := ChooseFrom(b, scores, i, bestScore, move);
      (forall j :: i <= j < 9 && b[j] == Empty ==> scores[j] <= r.0) &&
      (forall j :: i <= j < 9 && b[j] == Empty && r.1.Some? && j < r.1.value ==> scores[j] < r.0)
    decreases 9 - i
  {
    if i < 9 {
      if b[i] == Empty && scores[i] > bestScore {
        ChooseFromIsBest(b, scores, i + 1, scores[i], Some(i));
      } else {
        ChooseFromIsBest(b, scores, i + 1, bestScore, move);
      }
    }
  }

  /** The cell the computer takes: an empty cell whose score is maximal, and
      the lowest-numbered one among those with that score. */
  function BestMove(b: seq<Cell>): (m: Index)
    requires |b| == 9 && !Full(b)
    ensures b[m] == Empty
    ensures forall j: Index :: b[j] == Empty ==> Reply(b, j, true) <= Reply(b, m, true)
    ensures forall j: Index :: j < m && b[j] == Empty ==> Reply(b, j, true) < Reply(b, m, true)
  {
    var scores := Replies(b, true);
    var r := ChooseFrom(b, scores, 0, MinusInfinity, None);
    ChooseFromIsBest(b, scores, 0, MinusInfinity, None);
    assert r.1.Some? by {
      var e :| 0 <= e < |b| && b[e] == Empty;
    }
    var m := r.1.value;
    RepliesAt(b, true, m);
    assert forall j: Index :: b[j] == Empty ==> Reply(b, j, true) == scores[j] by {
      forall j: Index | b[j] == Empty
        ensures Reply(b, j, true) == scores[j]
      {
        RepliesAt(b, true, j);
      }
    }
    m
  }

  /** X on cells 0 and 1, threatening the top row; O to move. */
  const TopRowThreat: seq<Cell> := [Taken(X), Taken(X), Empty, Empty, Empty, Empty, Empty, Empty, Empty]

  /** O anywhere but cell 2 lets X complete the top row at once. */
  lemma UnblockedLoses(m: Index)
    requires m != 2 && TopRowThreat[m] == Empty
    ensures Reply(TopRowThreat, m, true) == -10
  {
    var after := TopRowThreat[m := Taken(O)];
    assert !Full(after) by {
      assert after[2] == Empty;
    }
    assert !HasCompleteLine(after) by {
      forall k | 0 <= k < |WinningConditions|
        ensures !Completes(after, WinningConditions[k])
      {
      }
    }
    GameValueIsMinimax(after, false);
    var won := after[2 := Taken(X)];
    assert Completes(won, WinningConditions[0]);
    assert Reply(after, 2, false) == GameValue(won, true) == -10;
  }

  /** Against the top-row threat the computer plays on cell 2. */
  lemma BlockPicksTwo()
    ensures BestMove(TopRowThreat) == 2
  {
    forall m: Index | m != 2 && TopRowThreat[m] == Empty
      ensures Reply(TopRowThreat, m, true) == -10
    {
      UnblockedLoses(m);
    }
    // Every other empty cell scores -10, the lowest score, so the first
    // strictly best cell cannot lie beyond the empty cell 2.
    assert TopRowThreat[2] == Empty && Reply(TopRowThreat, 2, true) >= -10;
  }

  /** X on cells 0, 1 and 4, O on cell 2: X threatens both 1-4-7 and 0-4-8. */
  const Fork: seq<Cell> := [Taken(X), Taken(X), Taken(O), Empty, Taken(X), Empty, Empty, Empty, Empty]

  /** Whichever cell O takes against the fork, X completes a line on the next move. */
  lemma ForkAnswerLoses(j: Index)
    requires Fork[j] == Empty
    ensures Reply(Fork, j, true) == -10
  {
    var answered := Fork[j := Taken(O)];
    assert !HasCompleteLine(answered) by {
      forall k | 0 <= k < |WinningConditions|
        ensures !Completes(answered, WinningConditions[k])
      {
      }
    }
    var w: Index := if j == 7 then 8 else 7;
    assert answered[w] == Empty;
    assert CheckWinner(answered) == Undecided;
    GameValueIsMinimax(answered, false);
    var won := answered[w := Taken(X)];
    assert Completes(won, WinningConditions[if j == 7 then 6 else 4]);
    assert CheckWinner(won) == Won(X);
    assert Mark(false) == X && Reply(answered, w, false) == GameValue(won, true) == -10;
    assert Mark(true) == O && Reply(Fork, j, true) == GameValue(answered, false);
  }

  /** With O to move against the fork, O has lost. */
  lemma ForkIsLost()
    ensures GameValue(Fork, true) == -10
  {
    assert !HasCompleteLine(Fork) by {
      forall k | 0 <= k < |WinningConditions|
        ensures !Completes(Fork, WinningConditions[k])
      {
      }
    }
    assert Fork[3] == Empty;
    GameValueIsMinimax(Fork, true);
    forall j: Index | Fork[j] == Empty
      ensures Reply(Fork, j, true) == -10
    {
      ForkAnswerLoses(j);
    }
  }

  /** X on cells 0 and 1, O on cell 2, every other cell empty. */
  predicate IsBlocked(b: seq<Cell>)
  {
    |b| == 9 && b[0] == Taken(X) && b[1] == Taken(X) && b[2] == Taken(O) &&
    forall k :: 3 <= k < 9 ==> b[k] == Empty
  }

  /** After the block, X forks on cell 4 and wins. */
  lemma BlockedForkLoses(blocked: seq<Cell>)
    requires IsBlocked(blocked)
    ensures Reply(blocked, 4, false) == -10
  {
    assert Mark(false) == X && blocked[4 := Taken(X)] == Fork;
    ForkIsLost();
  }

  /** After the block, nothing is decided yet. */
  lemma BlockedIsOpen(blocked: seq<Cell>)
    requires IsBlocked(blocked)
    ensures CheckWinner(blocked) == Undecided
  {
  }

  /** With O blocking the top row on cell 2 and X to move, X wins. */
  lemma BlockedIsLost(blocked: seq<Cell>)
    requires IsBlocked(blocked)
    ensures GameValue(blocked, false) == -10
  {
    BlockedIsOpen(blocked);
    BlockedForkLoses(blocked);
    ValueBoundsReply(blocked, false, 4);
  }

  /** The block on cell 2 does not save O either: X answers on cell 4 and
      threatens both 1-4-7 and 0-4-8, and O can close only one. So every empty cell
      scores -10, and BestMove takes cell 2 only as the lowest-numbered of equally
      scored cells. The leaf scores ignore depth, so a distant loss weighs as much
      as an immediate one. */
  lemma TopRowThreatIsLost()
    ensures forall m: Index :: TopRowThreat[m] == Empty ==> Reply(TopRowThreat, m, true) == -10
  {
    forall m: Index | TopRowThreat[m] == Empty
      ensures Reply(TopRowThreat, m, true) == -10
    {
      if m == 2 {
        BlockedIsLost(TopRowThreat[2 := Taken(O)]);
        assert Mark(true) == O;
      } else {
        UnblockedLoses(m);
      }
    }
  }
}
