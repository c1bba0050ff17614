/** The catcher's evaluation of a position: how far the cat is from its way out, and how close
    the walls stand around it. */
module Evaluation {
  import opened Basics
  import opened HexBoards
  import opened AlphaBeta
  import opened ChessBoards
  import EscapeSearch

  const DSTAB_SIZE := 9
  const DIST_SCORE_TAB := [8, 8, 4, 3, 2, 1, 1, 1, 1]

  /** What a wall scores at its distance, rows and columns added up. */
  function WallScore(cat: Cell, c: Cell): nat
  {
    var dd := Abs(cat.row - c.row) + Abs(cat.col - c.col);
    if dd < DSTAB_SIZE then DIST_SCORE_TAB[dd] else 0
  }

  /** The rows and columns between two cells, added up. */
  function Apart(a: Cell, b: Cell): nat
  {
    Abs(a.row - b.row) + Abs(a.col - b.col)
  }

  /** A wall scores the more, the nearer it is to the cat: eight beside it, and nothing from nine
      rows and columns on. */
  lemma NearerScoresMore(cat: Cell, a: Cell, b: Cell)
    requires Apart(cat, a) <= Apart(cat, b)
    ensures 8 >= WallScore(cat, a) >= WallScore(cat, b)
    ensures Apart(cat, a) <= 1 <==> WallScore(cat, a) == 8
    ensures Apart(cat, a) >= DSTAB_SIZE <==> WallScore(cat, a) == 0
  {
    if Apart(cat, b) < DSTAB_SIZE {
      FallingTable(Apart(cat, a), Apart(cat, b));
    }
  }

  lemma FallingTable(a: nat, b: nat)
    requires a <= b < DSTAB_SIZE
    ensures DIST_SCORE_TAB[a] >= DIST_SCORE_TAB[b] > 0
  {
  }

  /** The score of the walls among the first `cols` cells of a row. */
  function RowScore(walls: set<Cell>, cat: Cell, row: nat, cols: nat): nat
  {
    if cols == 0 then 0
    else
      var c := Cell(cols - 1, row);
      RowScore(walls, cat, row, cols - 1) + if c in walls then WallScore(cat, c) else 0
  }

  function RowsScore(walls: set<Cell>, cat: Cell, rows: nat): nat
  {
    if rows == 0 then 0 else RowsScore(walls, cat, rows - 1) + RowScore(walls, cat, rows - 1, BOARD_SIZE_COL)
  }

  // ---------- the walls score little ----------

  /** How many of the first `cols` columns are next to the cat's or the same. */
  function Near(cat: Cell, cols: nat): int
  {
    Max(0, Min(3, cols - (cat.col - 1)))
  }

  lemma {:induction false} CatRowScore(walls: set<Cell>, cat: Cell, cols: nat)
    requires OnBoard(cat) && cols <= BOARD_SIZE_COL
    ensures RowScore(walls, cat, cat.row, cols) <= 4 * cols + 4 * Near(cat, cols)
  {
    if cols > 0 {
      CatRowScore(walls, cat, cols - 1);
    }
  }

  lemma {:induction false} NextRowScore(walls: set<Cell>, cat: Cell, row: nat, cols: nat)
    requires OnBoard(cat) && Abs(cat.row - row) == 1 && cols <= BOARD_SIZE_COL
    ensures RowScore(walls, cat, row, cols) <= 4 * cols + if cols > cat.col then 4 else 0
  {
    if cols > 0 {
      NextRowScore(walls, cat, row, cols - 1);
    }
  }

  lemma {:induction false} FarRowScore(walls: set<Cell>, cat: Cell, row: nat, cols: nat)
    requires Abs(cat.row - row) > 1
    ensures RowScore(walls, cat, row, cols) <= 4 * cols
  {
    if cols > 0 {
      FarRowScore(walls, cat, row, cols - 1);
    }
  }

  /** Only the five cells within a distance of one score more than four. */
  lemma {:induction false} WallsScoreLittle(walls: set<Cell>, cat: Cell, rows: nat)
    requires OnBoard(cat) && rows <= BOARD_SIZE_ROW
    ensures RowsScore(walls, cat, rows) <= 36 * rows + (if rows > cat.row then 12 else 0)
      + (if rows > cat.row - 1 then 4 else 0) + (if rows > cat.row + 1 then 4 else 0)
  {
    if rows > 0 {
      WallsScoreLittle(walls, cat, rows - 1);
      var row := rows - 1;
      if row == cat.row {
        CatRowScore(walls, cat, BOARD_SIZE_COL);
      } else if Abs(cat.row - row) == 1 {
        NextRowScore(walls, cat, row, BOARD_SIZE_COL);
      } else {
        FarRowScore(walls, cat, row, BOARD_SIZE_COL);
      }
    }
  }

  // ---------- the evaluation ----------

  /** A distance as the escape search may find it. */
  ghost predicate Found(walls: set<Cell>, cat: Cell, distance: int)
  {
    && (distance == MAX_DISTANCE <==> forall w :: !EscapeSearch.Escape(walls, cat, w))
    && (distance != MAX_DISTANCE ==>
        && EdgeDistance(cat) <= distance < EscapeSearch.CELLS
        && exists w :: EscapeSearch.Escape(walls, cat, w) && |w| == distance + 1)
    && (EscapeSearch.EdgeNext(walls, cat) ==> distance <= 1) && (EdgeDistance(cat) == 0 ==> distance == 0)
  }

  /** A score as the evaluation may give it. */
  ghost predicate Evaluated(walls: set<Cell>, cat: Cell, score: int)
  {
    exists distance ::
      Found(walls, cat, distance) && score == distance * DIST_RATE + RowsScore(walls, cat, BOARD_SIZE_ROW)
  }

  /** Searches for the way out, then adds up what the walls score. */
  method Evaluate(walls: set<Cell>, cat: Cell) returns (score: int)
    requires OnBoard(cat)
    ensures Evaluated(walls, cat, score)
  {
    var evaluator := new EscapeSearch.Evaluator(walls, cat);
    var distance := evaluator.StartSearch();
    assert Found(walls, cat, distance);
    var minDist := distance * DIST_RATE;
    var round := 0;
    for row := 0 to BOARD_SIZE_ROW
      invariant round == RowsScore(walls, cat, row)
    {
      for col := 0 to BOARD_SIZE_COL
        invariant round == RowsScore(walls, cat, row) + RowScore(walls, cat, row, col)
      {
        var c := Cell(col, row);
        if c in walls {
          round := round + WallScore(cat, c);
        }
      }
    }
    return minDist + round;
  }

  /** No evaluation leaves the range of scores that the search starts with, and none of a cat that
      has a way out comes near that of a cat that has none. */
  lemma EvaluatedFits(walls: set<Cell>, cat: Cell, score: int)
    requires OnBoard(cat) && Evaluated(walls, cat, score)
    ensures MIN_SCORE <= score <= MAX_SCORE && score >= EdgeDistance(cat) * DIST_RATE
    ensures score >= MAX_DISTANCE * DIST_RATE <==> forall w :: !EscapeSearch.Escape(walls, cat, w)
    ensures score < MAX_DISTANCE * DIST_RATE - MAX_DEPTH <==> exists w :: EscapeSearch.Escape(walls, cat, w)
  {
    WallsScoreLittle(walls, cat, BOARD_SIZE_ROW);
    assert EdgeDistance(cat) >= 0;
  }

  /** The rules of the search with this evaluation. */
  ghost predicate EvaluatesSo(rules: Rules)
  {
    forall p: Position :: OnBoard(p.cat) ==> Evaluated(p.walls, p.cat, rules.evaluate(p))
  }

  lemma LeavesFit(rules: Rules, root: Position, initDepth: nat)
    requires EvaluatesSo(rules) && OnBoard(root.cat)
    ensures EvaluationsFit(rules, root, initDepth)
  {
    forall p | Reach(rules, root, initDepth, p) && !rules.won(p) ensures MIN_SCORE <= rules.evaluate(p) <= MAX_SCORE {
      StandsOn(rules, root, initDepth, p);
      EvaluatedFits(p.walls, p.cat, rules.evaluate(p));
    }
  }

  // ---------- what a win is worth ----------

  /** A won position is worth more to its winner the more depth is left: the catcher's wins count up
      from what a cat without a way out is worth, and the cat's count down from what a cat one step
      from the edge is worth. So no evaluation comes between. */
  lemma WinsAreWorth(rules: Rules, p: Position, depth: int, q: Position)
    requires EvaluatesSo(rules) && DecidesSo(rules) && OnBoard(p.cat) && Won(p) && 0 <= depth < MAX_DEPTH
    requires OnBoard(q.cat)
    ensures Minimax(rules, p, depth).Value?
    ensures var worth := Minimax(rules, p, depth).v;
      if p.turn == Cat then
        worth == MAX_DISTANCE * DIST_RATE + depth && (WayOut(q) ==> rules.evaluate(q) < worth - MAX_DEPTH)
      else
        worth == DIST_RATE - depth && (EdgeDistance(q.cat) > 0 ==> rules.evaluate(q) >= worth + depth)
  {
    assert Evaluated(q.walls, q.cat, rules.evaluate(q));
    EvaluatedFits(q.walls, q.cat, rules.evaluate(q));
  }

  /** The catcher can shut the cat in within `depth` moves, with at least `spare` of them left. */
  ghost predicate CatcherForces(p: Position, depth: int, spare: nat)
    decreases depth
  {
    if p.turn == Cat then
      if WayOut(p) then depth > 0 && forall c :: Legal(p, c) ==> CatcherForces(After(p, c), depth - 1, spare)
      else depth >= spare
    else
      EdgeDistance(p.cat) != 0 && depth > 0 && exists c :: Legal(p, c) && CatcherForces(After(p, c), depth - 1, spare)
  }

  /** The cat can get to the edge within `depth` moves, with at least `spare` of them left. */
  ghost predicate CatForces(p: Position, depth: int, spare: nat)
    decreases depth
  {
    if p.turn == Catcher then
      if EdgeDistance(p.cat) == 0 then depth >= spare
      else depth > 0 && forall c :: Legal(p, c) ==> CatForces(After(p, c), depth - 1, spare)
    else
      WayOut(p) && depth > 0 && exists c :: Legal(p, c) && CatForces(After(p, c), depth - 1, spare)
  }

  /** How a position stands in a search: the cat has a cell of its own, has a way out when it has
      just moved, and is off the edge when it is to move. */
  ghost predicate InPlay(p: Position)
  {
    Stands(p) && if p.turn == Catcher then WayOut(p) else EdgeDistance(p.cat) != 0
  }

  lemma InPlayAfter(p: Position, c: Cell)
    requires InPlay(p) && !Won(p) && Legal(p, c)
    ensures InPlay(After(p, c))
  {
    hide Neighbours;
    if p.turn == Cat {
      StepKeepsWayOut(p, c);
    }
  }

  lemma LeafInPlay(rules: Rules, p: Position)
    requires EvaluatesSo(rules) && DecidesSo(rules) && InPlay(p) && !Won(p)
    ensures !rules.won(p) && DIST_RATE <= rules.evaluate(p) < MAX_DISTANCE * DIST_RATE
  {
    assert Evaluated(p.walls, p.cat, rules.evaluate(p));
    EvaluatedFits(p.walls, p.cat, rules.evaluate(p));
  }

  /** The minimax value tells whether the catcher can force a win within the depth, and how soon. */
  lemma {:induction false} CatcherWinsFound(rules: Rules, p: Position, depth: int, spare: nat)
    requires EvaluatesSo(rules) && DecidesSo(rules) && InPlay(p) && 0 <= depth < MAX_DEPTH
    ensures AtLeast(Minimax(rules, p, depth), MAX_DISTANCE * DIST_RATE + spare) <==> CatcherForces(p, depth, spare)
    decreases depth
  {
    hide EvaluatesSo, DecidesSo;
    if Won(p) {
      WinsAreWorth(rules, p, depth, p);
    } else {
      LeafInPlay(rules, p);
      if depth > 0 {
        forall c | Legal(p, c)
          ensures AtLeast(Child(rules, p, depth, c), MAX_DISTANCE * DIST_RATE + spare)
            <==> CatcherForces(After(p, c), depth - 1, spare)
        {
          InPlayAfter(p, c);
          CatcherWinsFound(rules, After(p, c), depth - 1, spare);
        }
        MinimaxOverMoves(rules, p, depth, MAX_DISTANCE * DIST_RATE + spare);
      }
    }
  }

  /** And so for the cat, as long as the win is not on the very last move. */
  lemma {:induction false} CatWinsFound(rules: Rules, p: Position, depth: int, spare: nat)
    requires EvaluatesSo(rules) && DecidesSo(rules) && InPlay(p) && 0 <= depth < MAX_DEPTH && spare > 0
    ensures AtMost(Minimax(rules, p, depth), DIST_RATE - spare) <==> CatForces(p, depth, spare)
    decreases depth
  {
    hide EvaluatesSo, DecidesSo;
    if Won(p) {
      WinsAreWorth(rules, p, depth, p);
    } else {
      LeafInPlay(rules, p);
      if depth > 0 {
        forall c | Legal(p, c)
          ensures AtMost(Child(rules, p, depth, c), DIST_RATE - spare) <==> CatForces(After(p, c), depth - 1, spare)
        {
          InPlayAfter(p, c);
          CatWinsFound(rules, After(p, c), depth - 1, spare);
        }
        MinimaxOverMoves(rules, p, depth, DIST_RATE - spare);
      }
    }
  }

  lemma WinsFound(rules: Rules, p: Position, depth: int, score: int)
    requires EvaluatesSo(rules) && DecidesSo(rules) && InPlay(p) && 0 <= depth < MAX_DEPTH
    requires Minimax(rules, p, depth) == Value(score)
    ensures forall spare: nat ::
      && (score >= MAX_DISTANCE * DIST_RATE + spare <==> CatcherForces(p, depth, spare))
      && (spare > 0 ==> (score <= DIST_RATE - spare <==> CatForces(p, depth, spare)))
  {
    hide EvaluatesSo, DecidesSo, CatcherForces, CatForces, InPlay;
    forall spare: nat
      ensures score >= MAX_DISTANCE * DIST_RATE + spare <==> CatcherForces(p, depth, spare)
      ensures spare > 0 ==> (score <= DIST_RATE - spare <==> CatForces(p, depth, spare))
    {
      CatcherWinsFound(rules, p, depth, spare);
      if spare > 0 {
        CatWinsFound(rules, p, depth, spare);
      }
    }
  }

  /** The whole search with this evaluation and the board's rules: unless the first player cannot
      move at all, its result is the minimax value, and the move that it stores for the root
      attains it; and the value tells who can force a win within the depth, and how soon. */
  method FindMove(robot: Robot, board: Board, depth: nat) returns (score: int)
    requires robot.Valid() && depth < MAX_DEPTH && Stands(board.Now())
    requires EvaluatesSo(robot.rules) && DecidesSo(robot.rules)
    requires KeysTell(robot.rules, board.Now(), depth) && ZeroKeyHarmless(robot.rules, board.Now(), depth)
    modifies robot, board, robot.hashtab, robot.history, robot.movement, robot.TracksUpTo(MAX_DEPTH - 1)
    ensures robot.Valid() && board.Now() == old(board.Now())
    ensures CanMove(robot.rules, board.Now(), depth) ==>
      && Minimax(robot.rules, board.Now(), depth) == Value(score)
      && (depth > 0 && !robot.rules.won(board.Now()) ==>
        robot.Attains(board.Now(), depth, robot.movement[depth].cell, score))
    ensures CanMove(robot.rules, board.Now(), depth) && InPlay(board.Now()) ==>
      forall spare: nat ::
        && (score >= MAX_DISTANCE * DIST_RATE + spare <==> CatcherForces(board.Now(), depth, spare))
        && (spare > 0 ==> (score <= DIST_RATE - spare <==> CatForces(board.Now(), depth, spare)))
  {
    hide Reach, Minimax, KeysTell, ZeroKeyHarmless, EvaluatesSo, DecidesSo;
    LeavesFit(robot.rules, board.Now(), depth);
    NobodyStuck(robot.rules, board.Now(), depth);
    if CanMove(robot.rules, board.Now(), depth) {
      RootReached(robot.rules, board.Now());
      MinimaxIsValue(robot.rules, board.Now(), depth, 0, board.Now());
    }
    score := robot.StartSearch(board, depth);
    if CanMove(robot.rules, board.Now(), depth) && InPlay(board.Now()) {
      WinsFound(robot.rules, board.Now(), depth, score);
    }
  }

  // ---------- two positions with one key and different worth ----------

  lemma {:induction false} RowScoreMore(walls: set<Cell>, cat: Cell, c: Cell, row: nat, cols: nat)
    requires OnBoard(c) && c !in walls
    ensures RowScore(walls + {c}, cat, row, cols)
      == RowScore(walls, cat, row, cols) + if c.row == row && c.col < cols then WallScore(cat, c) else 0
  {
    if cols > 0 {
      RowScoreMore(walls, cat, c, row, cols - 1);
    }
  }

  /** A wall adds its score, wherever it stands among the others. */
  lemma {:induction false} RowsScoreMore(walls: set<Cell>, cat: Cell, c: Cell, rows: nat)
    requires OnBoard(c) && c !in walls
    ensures RowsScore(walls + {c}, cat, rows)
      == RowsScore(walls, cat, rows) + if c.row < rows then WallScore(cat, c) else 0
  {
    if rows > 0 {
      RowsScoreMore(walls, cat, c, rows - 1);
      RowScoreMore(walls, cat, c, rows - 1, BOARD_SIZE_COL);
    }
  }

  lemma {:induction false} NoWallsScore(cat: Cell, rows: nat)
    ensures RowsScore({}, cat, rows) == 0
  {
    if rows > 0 {
      NoWallsScore(cat, rows - 1);
      NoWallsRowScore(cat, rows - 1, BOARD_SIZE_COL);
    }
  }

  lemma {:induction false} NoWallsRowScore(cat: Cell, row: nat, cols: nat)
    ensures RowScore({}, cat, row, cols) == 0
  {
    if cols > 0 {
      NoWallsRowScore(cat, row, cols - 1);
    }
  }

  /** The cat of RIGHT is three steps from the edge, so after any step it is two away. */
  lemma RightWorth(rules: Rules)
    requires EvaluatesSo(rules) && DecidesSo(rules)
    ensures AtLeast(Minimax(rules, RIGHT, 1), 20)
  {
    hide EvaluatesSo, DecidesSo;
    RightComesUp(rules);
    forall c | Legal(RIGHT, c) ensures AtLeast(Child(rules, RIGHT, 1, c), 20) {
      var way :| 0 <= way < MAX_MOVEMENT && Step(RIGHT.cat, way) == c;
      StepNearEdge(RIGHT.cat, way);
      LeafWorth(rules, After(RIGHT, c));
    }
    MinimaxOverMoves(rules, RIGHT, 1, 20);
  }

  lemma LeafWorth(rules: Rules, p: Position)
    requires EvaluatesSo(rules) && DecidesSo(rules) && OnBoard(p.cat) && p.turn == Catcher && EdgeDistance(p.cat) > 0
    ensures Minimax(rules, p, 0) == Value(rules.evaluate(p))
    ensures rules.evaluate(p) >= EdgeDistance(p.cat) * DIST_RATE
    ensures EscapeSearch.EdgeNext(p.walls, p.cat) ==>
      rules.evaluate(p) <= DIST_RATE + RowsScore(p.walls, p.cat, BOARD_SIZE_ROW)
  {
    assert Evaluated(p.walls, p.cat, rules.evaluate(p));
  }

  /** The cat of LEFT can step to a cell beside the edge. */
  lemma LeftWorth(rules: Rules)
    requires EvaluatesSo(rules) && DecidesSo(rules)
    ensures AtMost(Minimax(rules, LEFT, 1), 11)
  {
    hide EvaluatesSo, DecidesSo;
    LeftComesUp(rules);
    var c := Cell(1, 3);
    assert Step(LEFT.cat, 2) == c && Step(c, 2) == Cell(0, 3);
    assert Legal(LEFT, c);
    assert Unoccupied(LEFT.walls, c, Cell(0, 3)) && Neighbours(c, Cell(0, 3)) && EdgeDistance(Cell(0, 3)) == 0;
    LeafWorth(rules, After(LEFT, c));
    LeftScore();
    assert AtMost(Child(rules, LEFT, 1, c), 11);
    MinimaxOverMoves(rules, LEFT, 1, 11);
  }

  lemma LeftScore()
    ensures RowsScore(LEFT.walls, Cell(1, 3), BOARD_SIZE_ROW) == 1
  {
    hide RowsScore;
    var cat, a, b, c := Cell(1, 3), Cell(5, 5), Cell(8, 6), Cell(8, 8);
    assert {} + {a} == {a} && {a} + {b} == {a, b} && {a, b} + {c} == {a, b, c};
    NoWallsScore(cat, BOARD_SIZE_ROW);
    RowsScoreMore({}, cat, a, BOARD_SIZE_ROW);
    RowsScoreMore({a}, cat, b, BOARD_SIZE_ROW);
    RowsScoreMore({a, b}, cat, c, BOARD_SIZE_ROW);
  }

  /** With the program's own board and evaluation the keys do not tell the worth in a search of
      depth six from the start: a true score of the one position, entered, is taken for a
      false one of the other. */
  lemma KeysMislead(rules: Rules)
    requires EvaluatesSo(rules) && DecidesSo(rules) && HashesSo(rules)
    ensures SameKey(rules, LEFT, RIGHT) && Open(rules, START, 5, LEFT) && Open(rules, START, 5, RIGHT)
    ensures Minimax(rules, LEFT, 1) != Minimax(rules, RIGHT, 1)
    ensures !KeysTell(rules, START, 6) && !EntriesHarmless(rules, START, 6)
  {
    hide EvaluatesSo, DecidesSo, HashesSo, Minimax;
    KeysMeet(rules, 6);
    LeftWorth(rules);
    RightWorth(rules);
    assert !KeysTell(rules, START, 6);
    NobodyStuck(rules, START, 6);
    assert Legal(START, Cell(0, 0));
    KeysTellExactly(rules, START, 6);
  }
}
