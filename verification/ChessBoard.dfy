/** The chess board's own rules for the search: who has won, and the hash of a placement. */
module ChessBoards {
  import opened HexBoards
  import opened AlphaBeta
  import EscapeSearch

  // ---------- who has won ----------

  /** The game is decided for the player to move: the cat has no way out, or has got out. */
  ghost predicate Won(p: Position)
  {
    if p.turn == Cat then forall w :: !EscapeSearch.Escape(p.walls, p.cat, w) else EdgeDistance(p.cat) == 0
  }

  method IsCatcherWin(walls: set<Cell>, cat: Cell) returns (won: bool)
    requires OnBoard(cat)
    ensures won <==> forall w :: !EscapeSearch.Escape(walls, cat, w)
  {
    var evaluator := new EscapeSearch.Evaluator(walls, cat);
    var distance := evaluator.StartSearch();
    return distance >= MAX_DISTANCE;
  }

  method IsCatWin(cat: Cell) returns (won: bool)
    requires OnBoard(cat)
    ensures won <==> EdgeDistance(cat) == 0
  {
    if cat.col == 0 || cat.col == BOARD_SIZE_COL - 1 {
      return true;
    }
    return cat.row == 0 || cat.row == BOARD_SIZE_ROW - 1;
  }

  method IsWinPlayer(p: Position) returns (won: bool)
    requires OnBoard(p.cat)
    ensures won <==> Won(p)
  {
    if p.turn == Cat {
      won := IsCatcherWin(p.walls, p.cat);
    } else {
      won := IsCatWin(p.cat);
    }
  }

  /** The rules of the search decide the game as the board does. */
  ghost predicate DecidesSo(rules: Rules)
  {
    forall p: Position :: OnBoard(p.cat) ==> (rules.won(p) <==> Won(p))
  }

  ghost predicate WayOut(p: Position)
  {
    exists w :: EscapeSearch.Escape(p.walls, p.cat, w)
  }

  // ---------- nobody gets stuck ----------

  /** The cat stands on a cell of its own. */
  predicate Stands(p: Position)
  {
    OnBoard(p.cat) && p.cat !in p.walls
  }

  lemma {:induction false} StandsOn(rules: Rules, root: Position, n: nat, p: Position)
    requires Reach(rules, root, n, p) && OnBoard(root.cat)
    ensures OnBoard(p.cat) && (Stands(root) ==> Stands(p))
  {
    if n > 0 {
      var q, c :| Reach(rules, root, n - 1, q) && !rules.won(q) && Legal(q, c) && p == After(q, c);
      StandsOn(rules, root, n - 1, q);
    }
  }

  /** A cat that has a way out and is not there yet has a step to take. */
  lemma EscapeSteps(p: Position)
    requires p.turn == Cat && !Won(p) && EdgeDistance(p.cat) != 0
    ensures exists c :: Legal(p, c)
  {
    var w :| EscapeSearch.Escape(p.walls, p.cat, w);
    assert Legal(p, w[1]);
  }

  /** What the first player to move needs, for a search of some depth. */
  ghost predicate CanMove(rules: Rules, root: Position, initDepth: nat)
  {
    initDepth == 0 || rules.won(root) || exists c :: Legal(root, c)
  }

  /** The catcher can wall in the cell that the cat has left. */
  lemma CellLeftIsFree(q: Position, c: Cell)
    requires q.turn == Cat && Stands(q) && Legal(q, c)
    ensures Legal(After(q, c), q.cat)
  {
    hide Neighbours;
  }

  /** The catcher's move leaves the cat where it was, off the edge. */
  lemma CatStaysInside(q: Position, c: Cell)
    requires q.turn == Catcher && !Won(q) && !Won(After(q, c))
    ensures exists step :: Legal(After(q, c), step)
  {
    hide EscapeSearch.Escape, EdgeDistance;
    EscapeSteps(After(q, c));
  }

  lemma MoversMove(rules: Rules, root: Position, n: nat, p: Position)
    requires DecidesSo(rules) && Stands(root) && n > 0 && Open(rules, root, n, p)
    ensures exists c :: Legal(p, c)
  {
    var q, c :| Reach(rules, root, n - 1, q) && !rules.won(q) && Legal(q, c) && p == After(q, c);
    hide Reach, Won, Legal;
    StandsOn(rules, root, n - 1, q);
    StandsOn(rules, root, n, p);
    if q.turn == Catcher {
      CatStaysInside(q, c);
    } else {
      CellLeftIsFree(q, c);
    }
  }

  /** With the board's rules nobody gets stuck below the root: a cat with a way out can step, and
      the catcher can wall in the cell that the cat has left. */
  lemma NobodyStuck(rules: Rules, root: Position, initDepth: nat)
    requires DecidesSo(rules) && Stands(root)
    ensures NeverStuck(rules, root, initDepth) <==> CanMove(rules, root, initDepth)
  {
    hide Legal, DecidesSo;
    if CanMove(rules, root, initDepth) {
      forall n: nat, p | n < initDepth && Reach(rules, root, n, p) && !rules.won(p) ensures exists c :: Legal(p, c) {
        if n > 0 {
          MoversMove(rules, root, n, p);
        }
      }
    } else {
      assert Reach(rules, root, 0, root);
    }
  }

  /** A cell that an escape comes by has a way out of its own. */
  lemma {:induction false} EscapeFrom(walls: set<Cell>, cat: Cell, w: seq<Cell>, k: nat)
    requires EscapeSearch.Escape(walls, cat, w) && k < |w| && OnBoard(cat) && cat !in walls
    ensures exists w' :: EscapeSearch.Escape(walls, w[k], w')
    decreases |w| - k
  {
    var rest := w[k..];
    if later :| k < later < |w| && w[later] == w[k] {
      EscapeFrom(walls, cat, w, later);
    } else {
      forall i | 1 <= i < |rest|
        ensures Unoccupied(walls, w[k], rest[i]) && Neighbours(rest[i - 1], rest[i])
      {
        assert rest[i] == w[k + i] && rest[i - 1] == w[k + i - 1];
      }
      assert EscapeSearch.Escape(walls, w[k], rest);
    }
  }

  /** A step of the cat does not shut it in: it can still go back to where it was. */
  lemma StepKeepsWayOut(q: Position, c: Cell)
    requires q.turn == Cat && Stands(q) && !Won(q) && Legal(q, c)
    ensures WayOut(After(q, c))
  {
    hide Neighbours;
    var w :| EscapeSearch.Escape(q.walls, q.cat, w);
    if k :| 0 <= k < |w| && w[k] == c {
      EscapeFrom(q.walls, q.cat, w, k);
    } else {
      NeighboursBothWays(q.cat, c);
      var back := [c] + w;
      forall i | 1 <= i < |back|
        ensures Unoccupied(q.walls, c, back[i]) && Neighbours(back[i - 1], back[i])
      {
        assert back[i] == w[i - 1];
      }
      assert EscapeSearch.Escape(q.walls, c, back);
    }
  }

  // ---------- the hash of a placement ----------

  const RANDOM_TAB_CATCHER: seq<seq<bv32>> := [
    [0xE00F4349, 0x788BC7B2, 0x02953C3F, 0x141C59A1, 0x76BA845A, 0xA737A9A6, 0x59E4D6EE, 0xBA3D7159, 0xBD7E54C1],
    [0x3629CE90, 0x7EF8583A, 0x3FCC6B19, 0x21E6532C, 0xAE43C6F6, 0xDBFB6226, 0x87020846, 0xCA482635, 0xED98E112],
    [0xEE5AE2CF, 0x7D4D40B5, 0x31571457, 0xCB8FEC16, 0x44815AC7, 0x0121E569, 0x00470B7C, 0x39CE56FD, 0x808C5AAF],
    [0xBAC240F8, 0x12F6F309, 0xD9AE0355, 0x6FEDA851, 0xCF9E0D7C, 0xBC79580C, 0x4D6D2965, 0x21389F28, 0x2F63D303],
    [0xCE51FE15, 0x3AD35972, 0x5DCDA559, 0xBF66B769, 0xA7046E4E, 0xABA65CA2, 0x61F08548, 0xD8F75F07, 0x55F743AE],
    [0xD6305AE6, 0xC570690C, 0x88AC24CB, 0xE67EE534, 0xCE61FBD3, 0x62840D78, 0x3125545A, 0xE32F31AD, 0xF5932E9B],
    [0x2743E2BB, 0x93E8B0A5, 0x3DD0E9B3, 0x8006DCBA, 0x92D0A520, 0xE020AEA9, 0x3F6DA67F, 0x23069120, 0x87BADD61],
    [0xD5D48D91, 0x21640FC3, 0x61085B71, 0xACEB0966, 0xB01C1A24, 0xE85C8463, 0xD690DC3D, 0x9F9634BF, 0xD7127BD9],
    [0x4D53E172, 0xC93281F2, 0x993BFFC2, 0xCF9FA26C, 0xF4262742, 0x1027F97A, 0xA32EA602, 0xB07475F5, 0xB4620A00]
  ]

  const RANDOM_TAB_CAT: seq<seq<bv32>> := [
    [0x5E424F08, 0x578CAA52, 0xF46652F1, 0x092F2C7B, 0x766D9830, 0xAA5E822D, 0xE158A899, 0x51E4471E, 0x3DBEE10D],
    [0x9835C581, 0x92F00B5F, 0x12AAF55C, 0x75EA7DA6, 0x99B55E0E, 0xA34AE737, 0x1E45A2E9, 0xFEA308B8, 0x4DCC47D4],
    [0xA5FF39AA, 0xCC1E1702, 0xDE8B0A29, 0x87B20F8F, 0xEDC874C8, 0xF8BEE518, 0x352830EF, 0xCD57C8CD, 0x8926D25C],
    [0xC1EF9C45, 0xA2B982D7, 0xF83CE347, 0x3BEA2BD4, 0xA76143AF, 0xDCD3CBA3, 0xCD2507FC, 0xAF9F389F, 0x5FE808BE],
    [0x3841FBAC, 0x0C858CBF, 0xDA1F56AA, 0x0B03BEBD, 0x042FF554, 0x714B09C9, 0x7E6AC831, 0x90BB6494, 0x794C913F],
    [0xCD9A4CAB, 0x8D429BA7, 0xDC52D8C1, 0x8FACDC26, 0x50FF02A7, 0x298751A7, 0xE4643F3A, 0x71DF7A62, 0x1F7959B0],
    [0xBFB31698, 0x2D2BE899, 0xDD6C383A, 0x039EC2A8, 0x27FB6D4F, 0xC12D40CC, 0x43103849, 0x8221297D, 0x2162FC03],
    [0x361EFEB6, 0x9C171C03, 0x764E96F8, 0xD009E90D, 0x1D17654A, 0x956238CE, 0xC5793554, 0xD003E9BF, 0x40D35A30],
    [0x592EEECA, 0x4F320B45, 0xBF1DFC53, 0x0FA761F5, 0xEE92D5C7, 0x0EA8540F, 0xBB492D92, 0xD2A7B458, 0x228EAD49]
  ]

  function WallKey(c: Cell): bv32
    requires OnBoard(c)
  {
    RANDOM_TAB_CATCHER[c.col][c.row]
  }

  function CatKey(c: Cell): bv32
    requires OnBoard(c)
  {
    RANDOM_TAB_CAT[c.col][c.row]
  }

  function Xor(a: bv32, b: bv32): bv32
  {
    a ^ b
  }

  lemma XorMoves(a: bv32, b: bv32, c: bv32)
    ensures Xor(Xor(a, b), c) == Xor(Xor(a, c), b) == Xor(a, Xor(b, c)) && Xor(a, 0) == a
  {
  }

  lemma XorCancels(a: bv32, b: bv32)
    ensures Xor(Xor(a, b), b) == a && Xor(a, b) == Xor(b, a)
  {
  }

  /** The key that a cell adds if it is a wall. */
  function AddedKey(walls: set<Cell>, c: Cell): bv32
    requires OnBoard(c)
  {
    if c in walls then WallKey(c) else 0
  }

  /** The keys of the walls among the first `cols` cells of a row. */
  function RowKey(walls: set<Cell>, row: nat, cols: nat): bv32
    requires row < BOARD_SIZE_ROW && cols <= BOARD_SIZE_COL
  {
    if cols == 0 then 0 else Xor(RowKey(walls, row, cols - 1), AddedKey(walls, Cell(cols - 1, row)))
  }

  function RowsKey(walls: set<Cell>, rows: nat): bv32
    requires rows <= BOARD_SIZE_ROW
  {
    if rows == 0 then 0 else Xor(RowsKey(walls, rows - 1), RowKey(walls, rows - 1, BOARD_SIZE_COL))
  }

  function HashKey(walls: set<Cell>, cat: Cell): bv32
    requires OnBoard(cat)
  {
    Xor(RowsKey(walls, BOARD_SIZE_ROW), CatKey(cat))
  }

  method MakeHash(walls: set<Cell>, cat: Cell) returns (checksum: bv32)
    requires OnBoard(cat)
    ensures checksum == HashKey(walls, cat)
  {
    hide WallKey, CatKey, Xor;
    checksum := 0;
    for row := 0 to BOARD_SIZE_ROW
      invariant checksum == RowsKey(walls, row)
    {
      ghost var above := checksum;
      XorMoves(above, 0, 0);
      for col := 0 to BOARD_SIZE_COL
        invariant checksum == Xor(above, RowKey(walls, row, col))
      {
        var c := Cell(col, row);
        XorMoves(above, RowKey(walls, row, col), AddedKey(walls, c));
        XorMoves(checksum, 0, 0);
        if c in walls {
          checksum := Xor(checksum, WallKey(c));
        }
      }
    }
    checksum := Xor(checksum, CatKey(cat));
  }

  lemma {:induction false} RowKeyMore(walls: set<Cell>, c: Cell, row: nat, cols: nat)
    requires OnBoard(c) && c !in walls && row < BOARD_SIZE_ROW && cols <= BOARD_SIZE_COL
    ensures RowKey(walls + {c}, row, cols)
      == if c.row == row && c.col < cols then Xor(RowKey(walls, row, cols), WallKey(c)) else RowKey(walls, row, cols)
  {
    hide WallKey, Xor;
    if cols > 0 {
      RowKeyMore(walls, c, row, cols - 1);
      var shorter := RowKey(walls, row, cols - 1);
      XorMoves(shorter, WallKey(c), AddedKey(walls, Cell(cols - 1, row)));
      XorMoves(shorter, 0, 0);
    }
  }

  /** A new wall changes the key by its own, wherever it stands among the others. */
  lemma {:induction false} WallChanges(walls: set<Cell>, c: Cell, rows: nat)
    requires OnBoard(c) && c !in walls && rows <= BOARD_SIZE_ROW
    ensures RowsKey(walls + {c}, rows)
      == if c.row < rows then Xor(RowsKey(walls, rows), WallKey(c)) else RowsKey(walls, rows)
  {
    hide WallKey, RowKey, Xor;
    if rows > 0 {
      WallChanges(walls, c, rows - 1);
      RowKeyMore(walls, c, rows - 1, BOARD_SIZE_COL);
      XorMoves(RowsKey(walls, rows - 1), RowKey(walls, rows - 1, BOARD_SIZE_COL), WallKey(c));
    }
  }

  /** A move changes the key by that of the new wall, or by those of the cell left and the cell
      entered, so the key of a placement does not depend on how it came about. */
  lemma MoveChanges(p: Position, c: Cell)
    requires Stands(p) && Legal(p, c)
    ensures var q := After(p, c);
      HashKey(q.walls, q.cat)
      == Xor(HashKey(p.walls, p.cat), if p.turn == Catcher then WallKey(c) else Xor(CatKey(p.cat), CatKey(c)))
  {
    hide WallKey, CatKey, Xor, RowsKey;
    var key := RowsKey(p.walls, BOARD_SIZE_ROW);
    if p.turn == Catcher {
      WallChanges(p.walls, c, BOARD_SIZE_ROW);
      XorMoves(key, WallKey(c), CatKey(p.cat));
    } else {
      XorCancels(key, CatKey(p.cat));
      XorMoves(Xor(key, CatKey(p.cat)), CatKey(p.cat), CatKey(c));
    }
  }

  /** The rules of the search hash as the board does. */
  ghost predicate HashesSo(rules: Rules)
  {
    forall walls, cat :: OnBoard(cat) ==> rules.hash(walls, cat) == HashKey(walls, cat) as nat
  }

  // ---------- two positions with one key ----------

  const START := Position({}, Cell(4, 4), Catcher)

  const LEFT := Position({Cell(5, 5), Cell(8, 6), Cell(8, 8)}, Cell(2, 3), Cat)
  const RIGHT := Position({Cell(0, 0), Cell(2, 5), Cell(4, 1)}, Cell(5, 5), Cat)

  lemma {:induction false} NoWallsKey(rows: nat)
    requires rows <= BOARD_SIZE_ROW
    ensures RowsKey({}, rows) == 0
  {
    if rows > 0 {
      NoWallsKey(rows - 1);
      NoWallsRow(rows - 1, BOARD_SIZE_COL);
    }
  }

  lemma {:induction false} NoWallsRow(row: nat, cols: nat)
    requires row < BOARD_SIZE_ROW && cols <= BOARD_SIZE_COL
    ensures RowKey({}, row, cols) == 0
  {
    hide WallKey;
    if cols > 0 {
      NoWallsRow(row, cols - 1);
    }
  }

  lemma ThreeWallsKey(a: Cell, b: Cell, c: Cell, cat: Cell)
    requires OnBoard(a) && OnBoard(b) && OnBoard(c) && a != b && c !in {a, b} && OnBoard(cat)
    ensures HashKey({a, b, c}, cat) == Xor(Xor(Xor(WallKey(a), WallKey(b)), WallKey(c)), CatKey(cat))
  {
    hide WallKey, CatKey, Xor, RowsKey;
    XorCancels(0, WallKey(a));
    XorMoves(WallKey(a), 0, 0);
    NoWallsKey(BOARD_SIZE_ROW);
    assert {} + {a} == {a} && {a} + {b} == {a, b} && {a, b} + {c} == {a, b, c};
    WallChanges({}, a, BOARD_SIZE_ROW);
    WallChanges({a}, b, BOARD_SIZE_ROW);
    WallChanges({a, b}, c, BOARD_SIZE_ROW);
  }

  lemma OneKey()
    ensures HashKey(LEFT.walls, LEFT.cat) == HashKey(RIGHT.walls, RIGHT.cat)
  {
    hide HashKey;
    ThreeWallsKey(Cell(5, 5), Cell(8, 6), Cell(8, 8), Cell(2, 3));
    ThreeWallsKey(Cell(0, 0), Cell(2, 5), Cell(4, 1), Cell(5, 5));
  }

  /** A cat with no wall beside it in its row, on one side, can walk straight out. */
  lemma StraightOut(walls: set<Cell>, cat: Cell, left: bool)
    requires OnBoard(cat)
    requires forall c :: c in walls && c.row == cat.row ==> if left then c.col > cat.col else c.col < cat.col
    ensures !Won(Position(walls, cat, Cat))
  {
    var n := if left then cat.col else BOARD_SIZE_COL - 1 - cat.col;
    var w := seq(n + 1, i => Cell(if left then cat.col - i else cat.col + i, cat.row));
    forall i | 1 <= i < |w| ensures Neighbours(w[i - 1], w[i]) {
      assert Step(w[i - 1], if left then 2 else 3) == w[i];
    }
    assert EscapeSearch.Escape(walls, cat, w);
  }

  /** Any catcher's moves `a`, `b`, `c` with the cat's steps `s`, `t` between them come up in a search
      from the start, if the cat stays off the edge and has a way out. */
  lemma FiveMoves(rules: Rules, a: Cell, s: Cell, b: Cell, t: Cell, c: Cell)
    requires DecidesSo(rules) && OnBoard(s) && OnBoard(t) && EdgeDistance(s) != 0 && EdgeDistance(t) != 0
    requires Legal(START, a) && Legal(Position({a}, START.cat, Cat), s) && Legal(Position({a}, s, Catcher), b)
    requires Legal(Position({a, b}, s, Cat), t) && Legal(Position({a, b}, t, Catcher), c)
    requires !Won(Position({a}, START.cat, Cat)) && !Won(Position({a, b}, s, Cat)) && !Won(Position({a, b, c}, t, Cat))
    ensures Open(rules, START, 5, Position({a, b, c}, t, Cat))
  {
    hide Legal, EscapeSearch.Escape, Neighbours, Reach;
    RootReached(rules, START);
    assert {} + {a} == {a} && {a} + {b} == {a, b} && {a, b} + {c} == {a, b, c};
    ReachMore(rules, START, 0, START, a);
    ReachMore(rules, START, 1, Position({a}, START.cat, Cat), s);
    ReachMore(rules, START, 2, Position({a}, s, Catcher), b);
    ReachMore(rules, START, 3, Position({a, b}, s, Cat), t);
    ReachMore(rules, START, 4, Position({a, b}, t, Catcher), c);
  }

  lemma ReachMore(rules: Rules, root: Position, n: nat, q: Position, c: Cell)
    requires Reach(rules, root, n, q) && !rules.won(q) && Legal(q, c)
    ensures Reach(rules, root, n + 1, After(q, c))
  {
  }

  /** Two different undecided positions, five moves from the start, have one key and one player to
      move. A search of depth six or more enters the one and looks up the other. */
  lemma KeysMeet(rules: Rules, depth: nat)
    requires DecidesSo(rules) && HashesSo(rules) && depth > 5
    ensures Open(rules, START, 5, LEFT) && Open(rules, START, 5, RIGHT)
    ensures LEFT != RIGHT && SameKey(rules, LEFT, RIGHT)
    ensures !KeysDiffer(rules, START, depth)
  {
    hide HashKey, Reach, Won, Neighbours;
    OneKey();
    assert Cell(0, 0) in RIGHT.walls && Cell(0, 0) !in LEFT.walls;
    LeftComesUp(rules);
    RightComesUp(rules);
  }

  lemma LeftComesUp(rules: Rules)
    requires DecidesSo(rules)
    ensures Open(rules, START, 5, LEFT)
  {
    StraightOut({Cell(5, 5)}, START.cat, true);
    StraightOut({Cell(5, 5), Cell(8, 6)}, Cell(3, 3), true);
    StraightOut(LEFT.walls, LEFT.cat, true);
    assert Step(Cell(4, 4), 0) == Cell(3, 3) && Step(Cell(3, 3), 2) == Cell(2, 3);
    FiveMoves(rules, Cell(5, 5), Cell(3, 3), Cell(8, 6), Cell(2, 3), Cell(8, 8));
  }

  lemma RightComesUp(rules: Rules)
    requires DecidesSo(rules)
    ensures Open(rules, START, 5, RIGHT)
  {
    StraightOut({Cell(0, 0)}, START.cat, true);
    StraightOut({Cell(0, 0), Cell(2, 5)}, Cell(5, 4), true);
    StraightOut(RIGHT.walls, RIGHT.cat, false);
    assert Step(Cell(4, 4), 3) == Cell(5, 4) && Step(Cell(5, 4), 5) == Cell(5, 5);
    FiveMoves(rules, Cell(0, 0), Cell(5, 4), Cell(2, 5), Cell(5, 5), Cell(4, 1));
  }
}
