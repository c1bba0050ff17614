/** The catcher's alpha-beta search with its transposition table, against plain minimax.
    The rules of the game (who has won, the static evaluation, the hash of a placement)
    are parameters. */
module AlphaBeta {
  import opened Basics
  import opened HexBoards

  const DIST_RATE := 10
  const MAX_DEPTH := 10
  const MIN_SCORE := 0
  const MAX_SCORE := (MAX_DISTANCE + 50) * DIST_RATE
  const INT_MAX := 0x7FFF_FFFF
  const UINT_SIZE := 0x1_0000_0000
  const HASH_SIZE := 0x10_0000
  const HH_SIZE := BOARD_SIZE_COL * BOARD_SIZE_ROW

  // ---------- positions and moves ----------

  datatype Player = Catcher | Cat

  datatype Position = Position(walls: set<Cell>, cat: Cell, turn: Player)

  predicate Free(p: Position, c: Cell)
  {
    Unoccupied(p.walls, p.cat, c)
  }

  /** The catcher walls in any free cell, the cat steps to a free neighbour. */
  predicate Legal(p: Position, c: Cell)
  {
    Free(p, c) && (p.turn == Cat ==> Neighbours(p.cat, c))
  }

  function Other(player: Player): Player
  {
    if player == Catcher then Cat else Catcher
  }

  function After(p: Position, c: Cell): Position
  {
    if p.turn == Catcher then Position(p.walls + {c}, p.cat, Cat) else Position(p.walls, c, Catcher)
  }

  /** What Undo needs to know: the new wall, or the cell the cat came from. */
  function Record(p: Position, c: Cell): Cell
  {
    if p.turn == Catcher then c else p.cat
  }

  function Before(p: Position, record: Cell): Position
  {
    if p.turn == Cat then Position(p.walls - {record}, p.cat, Catcher) else Position(p.walls, record, Cat)
  }

  lemma UndoInvertsMove(p: Position, c: Cell)
    requires Legal(p, c)
    ensures Before(After(p, c), Record(p, c)) == p
  {
    if p.turn == Catcher {
      assert p.walls + {c} - {c} == p.walls;
    }
  }

  class Board {
    var walls: set<Cell>
    var cat: Cell
    var turn: Player
    var recorder: seq<Cell>

    function Now(): Position
      reads this
    {
      Position(walls, cat, turn)
    }

    constructor (walls: set<Cell>, cat: Cell, turn: Player)
      ensures Now() == Position(walls, cat, turn) && recorder == []
    {
      this.walls, this.cat, this.turn, recorder := walls, cat, turn, [];
    }

    method Move(c: Cell) returns (ok: bool)
      modifies this
      ensures ok == Legal(old(Now()), c)
      ensures ok ==> Now() == After(old(Now()), c) && recorder == old(recorder) + [Record(old(Now()), c)]
      ensures !ok ==> Now() == old(Now()) && recorder == old(recorder)
    {
      if !Legal(Now(), c) {
        return false;
      }
      recorder := recorder + [Record(Now(), c)];
      if turn == Catcher {
        walls := walls + {c};
      } else {
        cat := c;
      }
      turn := Other(turn);
      return true;
    }

    method Undo() returns (ok: bool)
      modifies this
      ensures ok == (old(recorder) != [])
      ensures ok ==> Now() == Before(old(Now()), old(recorder)[|old(recorder)| - 1])
      ensures ok ==> recorder == old(recorder)[..|old(recorder)| - 1]
      ensures !ok ==> Now() == old(Now()) && recorder == old(recorder)
    {
      if recorder == [] {
        return false;
      }
      var record := recorder[|recorder| - 1];
      recorder := recorder[..|recorder| - 1];
      if turn == Cat {
        walls := walls - {record};
      } else {
        cat := record;
      }
      turn := Other(turn);
      return true;
    }
  }

  // ---------- plain minimax ----------

  /** `won` tells that the game is decided for the player to move, as the board reports it. */
  datatype Rules = Rules(won: Position -> bool, evaluate: Position -> int, hash: (set<Cell>, Cell) -> nat)

  /** A minimax value. A player without moves has the worst possible one. */
  datatype Score = Below | Value(v: int) | Above

  predicate AtMost(s: Score, r: int)
  {
    s.Below? || (s.Value? && s.v <= r)
  }

  predicate AtLeast(s: Score, r: int)
  {
    s.Above? || (s.Value? && s.v >= r)
  }

  function Lower(a: Score, b: Score): Score
  {
    if a.Below? || b.Below? then Below
    else if a.Above? then b
    else if b.Above? then a
    else Value(Min(a.v, b.v))
  }

  function Higher(a: Score, b: Score): Score
  {
    if a.Above? || b.Above? then Above
    else if a.Below? then b
    else if b.Below? then a
    else Value(Max(a.v, b.v))
  }

  function WonScore(turn: Player, depth: int): int
  {
    if turn == Catcher then DIST_RATE - depth else MAX_DISTANCE * DIST_RATE + depth
  }

  /** The cells in scan order, row by row, and the legal ones among the first `k`. */
  function CellAt(k: nat): Cell
  {
    Cell(k % BOARD_SIZE_COL, k / BOARD_SIZE_COL)
  }

  function LegalAmong(p: Position, k: nat): seq<Cell>
  {
    if k == 0 then []
    else LegalAmong(p, k - 1) + if Legal(p, CellAt(k - 1)) then [CellAt(k - 1)] else []
  }

  function Moves(p: Position): seq<Cell>
  {
    LegalAmong(p, HH_SIZE)
  }

  lemma {:induction false} LegalAmongIs(p: Position, k: nat)
    ensures forall c :: c in LegalAmong(p, k) <==> Legal(p, c) && c.row * BOARD_SIZE_COL + c.col < k
    decreases k
  {
    if k > 0 {
      LegalAmongIs(p, k - 1);
      forall c | OnBoard(c) && c.row * BOARD_SIZE_COL + c.col == k - 1 ensures c == CellAt(k - 1) {
      }
    }
  }

  function Minimax(rules: Rules, p: Position, depth: int): Score
    decreases depth, 0, 0
  {
    if rules.won(p) then Value(WonScore(p.turn, depth))
    else if depth <= 0 then Value(rules.evaluate(p))
    else Best(rules, p, depth, Moves(p))
  }

  /** The best value for the player to move among some moves. */
  function Best(rules: Rules, p: Position, depth: int, moves: seq<Cell>): Score
    requires depth > 0
    decreases depth - 1, 1, |moves|
  {
    if moves == [] then (if p.turn == Catcher then Below else Above)
    else
      var first := Minimax(rules, After(p, moves[0]), depth - 1);
      var rest := Best(rules, p, depth, moves[1..]);
      if p.turn == Catcher then Higher(first, rest) else Lower(first, rest)
  }

  function Child(rules: Rules, p: Position, depth: int, c: Cell): Score
    requires depth > 0
  {
    Minimax(rules, After(p, c), depth - 1)
  }

  lemma {:induction false} BestForCatcher(rules: Rules, p: Position, depth: int, moves: seq<Cell>, r: int)
    requires depth > 0 && p.turn == Catcher
    ensures AtMost(Best(rules, p, depth, moves), r) <==> forall c :: c in moves ==> AtMost(Child(rules, p, depth, c), r)
    ensures AtLeast(Best(rules, p, depth, moves), r) <==> exists c ::
      c in moves && AtLeast(Child(rules, p, depth, c), r)
    decreases |moves|
  {
    if moves != [] {
      BestForCatcher(rules, p, depth, moves[1..], r);
      assert forall c :: c in moves <==> c == moves[0] || c in moves[1..];
      var first, rest := Child(rules, p, depth, moves[0]), Best(rules, p, depth, moves[1..]);
      assert Best(rules, p, depth, moves) == Higher(first, rest);
    }
  }

  lemma {:induction false} BestForCat(rules: Rules, p: Position, depth: int, moves: seq<Cell>, r: int)
    requires depth > 0 && p.turn == Cat
    ensures AtLeast(Best(rules, p, depth, moves), r) <==> forall c ::
      c in moves ==> AtLeast(Child(rules, p, depth, c), r)
    ensures AtMost(Best(rules, p, depth, moves), r) <==> exists c :: c in moves && AtMost(Child(rules, p, depth, c), r)
    decreases |moves|
  {
    if moves != [] {
      BestForCat(rules, p, depth, moves[1..], r);
      assert forall c :: c in moves <==> c == moves[0] || c in moves[1..];
      var first, rest := Child(rules, p, depth, moves[0]), Best(rules, p, depth, moves[1..]);
      assert Best(rules, p, depth, moves) == Lower(first, rest);
    }
  }

  /** The minimax value is the largest or the smallest of the values after the legal moves,
      whatever the order the moves are taken in. */
  lemma MinimaxOverMoves(rules: Rules, p: Position, depth: int, r: int)
    requires depth > 0 && !rules.won(p)
    ensures p.turn == Catcher ==>
      && (AtMost(Minimax(rules, p, depth), r) <==> forall c :: Legal(p, c) ==> AtMost(Child(rules, p, depth, c), r))
      && (AtLeast(Minimax(rules, p, depth), r) <==> exists c :: Legal(p, c) && AtLeast(Child(rules, p, depth, c), r))
    ensures p.turn == Cat ==>
      && (AtLeast(Minimax(rules, p, depth), r) <==> forall c :: Legal(p, c) ==> AtLeast(Child(rules, p, depth, c), r))
      && (AtMost(Minimax(rules, p, depth), r) <==> exists c :: Legal(p, c) && AtMost(Child(rules, p, depth, c), r))
  {
    LegalAmongIs(p, HH_SIZE);
    assert forall c :: c in Moves(p) <==> Legal(p, c);
    if p.turn == Catcher {
      BestForCatcher(rules, p, depth, Moves(p), r);
    } else {
      BestForCat(rules, p, depth, Moves(p), r);
    }
  }

  // ---------- what a position fixes ----------

  /** The positions that can come up `n` moves below the root. */
  ghost predicate Reach(rules: Rules, root: Position, n: nat, p: Position)
  {
    if n == 0 then p == root
    else exists q, c :: Reach(rules, root, n - 1, q) && !rules.won(q) && Legal(q, c) && p == After(q, c)
  }

  lemma RootReached(rules: Rules, root: Position)
    ensures Reach(rules, root, 0, root)
  {
  }

  /** Every catcher move adds one wall and the turns alternate, so the walls and the player
      to move tell how many moves have been made. */
  function Ply(root: Position, p: Position): int
  {
    2 * (|p.walls| - |root.walls|)
    + (if p.turn == root.turn then 0 else if root.turn == Catcher then -1 else 1)
  }

  lemma MovePly(root: Position, q: Position, c: Cell)
    requires Legal(q, c)
    ensures Ply(root, After(q, c)) == Ply(root, q) + 1
  {
  }

  lemma {:induction false} PositionFixesPly(rules: Rules, root: Position, n: nat, p: Position)
    requires Reach(rules, root, n, p)
    ensures n == Ply(root, p)
  {
    hide Legal;
    if n > 0 {
      var q, c :| Reach(rules, root, n - 1, q) && !rules.won(q) && Legal(q, c) && p == After(q, c);
      PositionFixesPly(rules, root, n - 1, q);
      MovePly(root, q, c);
    }
  }

  // ---------- the transposition table ----------

  datatype Entry = Exact | LowerBound | UpperBound

  datatype HashItem = HashItem(checksum: nat, depth: int, score: int, entry: Entry)

  const NO_ITEM := HashItem(0, 0, 0, Exact)

  /** The low bit of the slot is the player, the other bits are those of the key. */
  function Slot(key: nat, player: Player): (slot: nat)
    ensures slot < HASH_SIZE
  {
    key % HASH_SIZE / 2 * 2 + if player == Catcher then 0 else 1
  }

  /** Two keys meet in a slot exactly for the same player, and when they agree in the bits of the
      mask; the lowest bit is not one of them. */
  lemma SlotsMeet(a: nat, first: Player, b: nat, second: Player)
    ensures Slot(a, first) == Slot(b, second) <==>
      first == second && a / 2 % (HASH_SIZE / 2) == b / 2 % (HASH_SIZE / 2)
  {
    HalfOfSlot(a);
    HalfOfSlot(b);
  }

  lemma HalfOfSlot(key: nat)
    ensures key % HASH_SIZE / 2 == key / 2 % (HASH_SIZE / 2)
  {
    var q, r := key / HASH_SIZE, key % HASH_SIZE;
    assert key / 2 == q * (HASH_SIZE / 2) + r / 2;
  }

  function Key(rules: Rules, p: Position): nat
  {
    rules.hash(p.walls, p.cat)
  }

  ghost predicate Bounds(item: HashItem, s: Score)
  {
    match item.entry
    case Exact => s == Value(item.score)
    case LowerBound => AtLeast(s, item.score)
    case UpperBound => AtMost(s, item.score)
  }

  /** If the item can be taken for position `p` at `depth`, its depth is that very depth and
      its bound is true of the minimax value. */
  ghost predicate Honest(rules: Rules, item: HashItem, p: Position, depth: int)
  {
    item.checksum == Key(rules, p) && item.depth >= depth ==>
      item.depth == depth && Bounds(item, Minimax(rules, p, depth))
  }

  /** An undecided position of the search, `n` moves below the root. */
  ghost predicate Open(rules: Rules, root: Position, n: nat, p: Position)
  {
    Reach(rules, root, n, p) && !rules.won(p)
  }

  /** Every item is honest for every undecided position of the search. */
  ghost predicate HonestTable(rules: Rules, root: Position, initDepth: nat, table: seq<HashItem>)
    requires |table| == HASH_SIZE
  {
    forall n: nat, p {:trigger Open(rules, root, n, p)} | n <= initDepth && Open(rules, root, n, p) ::
      Honest(rules, table[Slot(Key(rules, p), p.turn)], p, initDepth - n)
  }

  /** Both positions are looked up with the same key at the same slot. */
  predicate SameKey(rules: Rules, p: Position, q: Position)
  {
    p.turn == q.turn && Key(rules, p) == Key(rules, q)
  }

  /** Different undecided positions of the search, not both leaves, have different keys or
      different players to move. Leaves are looked up, but never entered. */
  ghost predicate KeysDiffer(rules: Rules, root: Position, initDepth: nat)
  {
    forall m: nat, n: nat, p, q {:trigger Open(rules, root, m, p), Open(rules, root, n, q)} |
      m < initDepth && n <= initDepth && Open(rules, root, m, p) && Open(rules, root, n, q) ::
      SameKey(rules, p, q) ==> p == q
  }

  /** Key and player tell how far below the root an undecided position is and what it is worth,
      leaves among themselves excepted. */
  ghost predicate KeysTell(rules: Rules, root: Position, initDepth: nat)
  {
    forall m: nat, n: nat, p, q {:trigger Open(rules, root, m, p), Open(rules, root, n, q)} |
      m < initDepth && n <= initDepth && Open(rules, root, m, p) && Open(rules, root, n, q) ::
      SameKey(rules, p, q) ==> m == n && Minimax(rules, p, initDepth - m) == Minimax(rules, q, initDepth - n)
  }

  lemma DifferentKeysTell(rules: Rules, root: Position, initDepth: nat)
    requires KeysDiffer(rules, root, initDepth)
    ensures KeysTell(rules, root, initDepth)
  {
    hide Reach, Minimax, Key;
    forall m: nat, n: nat, p, q | m < initDepth && n <= initDepth && Open(rules, root, m, p)
      && Open(rules, root, n, q) && SameKey(rules, p, q)
      ensures m == n && p == q
    {
      PositionFixesPly(rules, root, m, p);
      PositionFixesPly(rules, root, n, q);
    }
  }

  /** No undecided leaf has key 0, the checksum of an empty slot; or it is worth 0 anyway. */
  ghost predicate ZeroKeyHarmless(rules: Rules, root: Position, initDepth: nat)
  {
    forall p | Open(rules, root, initDepth, p) :: Key(rules, p) == 0 ==> rules.evaluate(p) == 0
  }

  /** A cleared table is honest exactly when key 0 does no harm: otherwise the empty slot is
      taken for an exact score 0 of the leaf. */
  lemma ClearedTable(rules: Rules, root: Position, initDepth: nat, table: seq<HashItem>)
    requires |table| == HASH_SIZE && forall i :: 0 <= i < HASH_SIZE ==> table[i] == NO_ITEM
    ensures HonestTable(rules, root, initDepth, table) <==> ZeroKeyHarmless(rules, root, initDepth)
  {
    if HonestTable(rules, root, initDepth, table) {
      forall p | Open(rules, root, initDepth, p) ensures Key(rules, p) == 0 ==> rules.evaluate(p) == 0
      {
        assert Honest(rules, table[Slot(Key(rules, p), p.turn)], p, 0);
      }
    }
  }

  function LookUp(item: HashItem, alpha: int, beta: int, depth: int, key: nat): int
  {
    if item.checksum != key then INT_MAX
    else if item.depth >= depth && item.entry == Exact then item.score
    else if item.depth >= depth && item.entry == LowerBound && item.score >= beta then item.score
    else if item.depth >= depth && item.entry == UpperBound && item.score <= alpha then item.score
    else INT_MAX
  }

  /** The three replacement rules: the same checksum is overwritten by exact scores only,
      another checksum by an exact score over a bound only, an empty slot always. */
  function Replace(present: HashItem, entered: HashItem): HashItem
  {
    if present.checksum == entered.checksum then (if entered.entry == Exact then entered else present)
    else if present.checksum != 0 then (if entered.entry == Exact && present.entry != Exact then entered else present)
    else entered
  }

  /** What a search with window (alpha, beta) may return for a position worth `s`. */
  ghost predicate FailSoft(s: Score, alpha: int, beta: int, r: int)
  {
    && (r <= alpha ==> AtMost(s, r))
    && (r >= beta ==> AtLeast(s, r))
    && (alpha < r < beta ==> s == Value(r))
  }

  /** A hit in an honest table answers the search. */
  lemma HitAnswers(rules: Rules, p: Position, item: HashItem, alpha: int, beta: int, depth: int)
    requires alpha < beta && Honest(rules, item, p, depth)
    ensures var r := LookUp(item, alpha, beta, depth, Key(rules, p));
      r != INT_MAX ==> FailSoft(Minimax(rules, p, depth), alpha, beta, r)
  {
  }

  function Entered(table: seq<HashItem>, item: HashItem, player: Player): (table': seq<HashItem>)
    requires |table| == HASH_SIZE
    ensures |table'| == HASH_SIZE
  {
    var slot := Slot(item.checksum, player);
    table[slot := Replace(table[slot], item)]
  }

  /** Whether the replacement rules let an item in. */
  predicate LetIn(present: HashItem, item: HashItem)
  {
    || (present.checksum == 0 && item.checksum != 0)
    || (item.entry == Exact && (present.checksum == item.checksum || present.entry != Exact))
  }

  /** An item that is let in is then found with its key, from its depth on down: an exact score by
      every window, a bound by those it decides. The others leave the table as it was. */
  lemma EnteredIsFound(table: seq<HashItem>, item: HashItem, player: Player, alpha: int, beta: int, depth: int)
    requires |table| == HASH_SIZE && item.score != INT_MAX && depth <= item.depth
    ensures var slot, table' := Slot(item.checksum, player), Entered(table, item, player);
      var score := LookUp(table'[slot], alpha, beta, depth, item.checksum);
      if LetIn(table[slot], item) then
        && (forall i :: 0 <= i < HASH_SIZE && i != slot ==> table'[i] == table[i])
        && (score == item.score || score == INT_MAX)
        && (score == INT_MAX <==>
          (item.entry == LowerBound && item.score < beta) || (item.entry == UpperBound && item.score > alpha))
      else table' == table
  {
    var slot, table' := Slot(item.checksum, player), Entered(table, item, player);
    assert LetIn(table[slot], item) ==> table'[slot] == item;
  }

  /** What is found was entered with that very key, at that depth or a greater one. */
  lemma FoundWasEntered(item: HashItem, alpha: int, beta: int, depth: int, key: nat)
    ensures LookUp(item, alpha, beta, depth, key) != INT_MAX ==>
      item.checksum == key && item.depth >= depth && LookUp(item, alpha, beta, depth, key) == item.score
  {
  }

  /** The item is honest for every undecided position with this player to move. */
  ghost predicate Harmless(rules: Rules, root: Position, initDepth: nat, item: HashItem, player: Player)
  {
    forall n: nat, q {:trigger Open(rules, root, n, q)} |
      n <= initDepth && Open(rules, root, n, q) && q.turn == player :: Honest(rules, item, q, initDepth - n)
  }

  /** Entering any item keeps an honest table honest if and only if the replacement rules do not
      store it, or it is honest for every position with its key. */
  lemma EnterExactly(rules: Rules, root: Position, initDepth: nat, table: seq<HashItem>, item: HashItem, player: Player)
    requires |table| == HASH_SIZE && HonestTable(rules, root, initDepth, table)
    ensures HonestTable(rules, root, initDepth, Entered(table, item, player)) <==>
      Entered(table, item, player) == table || Harmless(rules, root, initDepth, item, player)
  {
    hide Reach, Bounds, Minimax, Key;
    var slot, table' := Slot(item.checksum, player), Entered(table, item, player);
    if HonestTable(rules, root, initDepth, table') && table' != table {
      forall n: nat, q | n <= initDepth && Open(rules, root, n, q) && q.turn == player
        ensures Honest(rules, item, q, initDepth - n)
      {
        assert Honest(rules, table'[Slot(Key(rules, q), player)], q, initDepth - n);
      }
    }
    if Harmless(rules, root, initDepth, item, player) {
      forall n: nat, q | n <= initDepth && Open(rules, root, n, q)
        ensures Honest(rules, table'[Slot(Key(rules, q), q.turn)], q, initDepth - n)
      {
        assert Honest(rules, table[Slot(Key(rules, q), q.turn)], q, initDepth - n);
        if Slot(Key(rules, q), q.turn) == slot {
          assert q.turn == player;
        }
      }
    }
  }

  /** A bound, true of the position, as the search enters it. */
  ghost predicate TrueOf(rules: Rules, item: HashItem, p: Position)
  {
    item.checksum == Key(rules, p) && Bounds(item, Minimax(rules, p, item.depth))
  }

  /** A true bound is harmless if and only if every other position with its key is nearer to the
      root, or just as near and bounded by it too. */
  lemma CollisionsHarmless(rules: Rules, root: Position, initDepth: nat, m: nat, p: Position, item: HashItem)
    requires TrueOf(rules, item, p) && m <= initDepth && item.depth == initDepth - m
    ensures Harmless(rules, root, initDepth, item, p.turn) <==>
      forall n: nat, q {:trigger Open(rules, root, n, q)} |
        n <= initDepth && Open(rules, root, n, q) && SameKey(rules, p, q) ::
        n < m || (n == m && Bounds(item, Minimax(rules, q, item.depth)))
  {
    hide Open, Minimax, Bounds;
    if Harmless(rules, root, initDepth, item, p.turn) {
      forall n: nat, q | n <= initDepth && Open(rules, root, n, q) && SameKey(rules, p, q)
        ensures n < m || (n == m && Bounds(item, Minimax(rules, q, item.depth)))
      {
        assert Honest(rules, item, q, initDepth - n);
      }
    }
  }

  /** Whatever true bound is entered, for whatever undecided position above the leaves. */
  ghost predicate EntriesHarmless(rules: Rules, root: Position, initDepth: nat)
  {
    forall m: nat, p, item {:trigger Open(rules, root, m, p), TrueOf(rules, item, p)} |
      m < initDepth && Open(rules, root, m, p) && TrueOf(rules, item, p) && item.depth == initDepth - m ::
      Harmless(rules, root, initDepth, item, p.turn)
  }

  lemma TruthHarmless(rules: Rules, root: Position, initDepth: nat, m: nat, p: Position, item: HashItem)
    requires KeysTell(rules, root, initDepth) && m < initDepth && Open(rules, root, m, p)
    requires TrueOf(rules, item, p) && item.depth == initDepth - m
    ensures Harmless(rules, root, initDepth, item, p.turn)
  {
    hide Open, Minimax, Key, Bounds;
    forall n: nat, q | n <= initDepth && Open(rules, root, n, q) && q.turn == p.turn
      ensures Honest(rules, item, q, initDepth - n)
    {
      if item.checksum == Key(rules, q) {
        assert SameKey(rules, p, q);
      }
    }
  }

  lemma ExactTells(rules: Rules, root: Position, initDepth: nat, m: nat, p: Position, n: nat, q: Position)
    requires NeverStuck(rules, root, initDepth) && EntriesHarmless(rules, root, initDepth)
    requires m < initDepth && n <= initDepth && Open(rules, root, m, p) && Open(rules, root, n, q)
    requires SameKey(rules, p, q)
    ensures m <= n ==> m == n && Minimax(rules, p, initDepth - m) == Minimax(rules, q, initDepth - n)
  {
    hide NeverStuck, Minimax, Reach;
    MinimaxIsValue(rules, root, initDepth, m, p);
    var item := HashItem(Key(rules, p), initDepth - m, Minimax(rules, p, initDepth - m).v, Exact);
    assert TrueOf(rules, item, p);
    assert Harmless(rules, root, initDepth, item, p.turn);
    assert Honest(rules, item, q, initDepth - n);
  }

  /** No true bound does harm if and only if the keys tell ply and worth. */
  lemma KeysTellExactly(rules: Rules, root: Position, initDepth: nat)
    ensures KeysTell(rules, root, initDepth) ==> EntriesHarmless(rules, root, initDepth)
    ensures NeverStuck(rules, root, initDepth) && EntriesHarmless(rules, root, initDepth)
      ==> KeysTell(rules, root, initDepth)
  {
    hide Open, Minimax, Key, NeverStuck, Bounds, Harmless;
    if KeysTell(rules, root, initDepth) {
      forall m: nat, p, item {:trigger Open(rules, root, m, p), TrueOf(rules, item, p)} |
        m < initDepth && Open(rules, root, m, p) && TrueOf(rules, item, p) && item.depth == initDepth - m
        ensures Harmless(rules, root, initDepth, item, p.turn)
      {
        TruthHarmless(rules, root, initDepth, m, p, item);
      }
    }
    if NeverStuck(rules, root, initDepth) && EntriesHarmless(rules, root, initDepth) {
      forall m: nat, n: nat, p, q | m < initDepth && n <= initDepth && Open(rules, root, m, p)
        && Open(rules, root, n, q) && SameKey(rules, p, q)
        ensures m == n && Minimax(rules, p, initDepth - m) == Minimax(rules, q, initDepth - n)
      {
        ExactTells(rules, root, initDepth, m, p, n, q);
        if n < m {
          ExactTells(rules, root, initDepth, n, q, m, p);
        }
      }
    }
  }

  /** So entering a true bound keeps the table honest when the keys tell ply and worth. */
  lemma EnterKeepsHonest(rules: Rules, root: Position, initDepth: nat, table: seq<HashItem>, n: nat, p: Position,
      item: HashItem)
    requires |table| == HASH_SIZE && HonestTable(rules, root, initDepth, table) && KeysTell(rules, root, initDepth)
    requires n < initDepth && Open(rules, root, n, p) && TrueOf(rules, item, p) && item.depth == initDepth - n
    ensures HonestTable(rules, root, initDepth, Entered(table, item, p.turn))
  {
    KeysTellExactly(rules, root, initDepth);
    EnterExactly(rules, root, initDepth, table, item, p.turn);
  }

  /** The evaluations of the undecided leaves are proper scores. */
  ghost predicate EvaluationsFit(rules: Rules, root: Position, initDepth: nat)
  {
    forall p | Reach(rules, root, initDepth, p) && !rules.won(p) :: MIN_SCORE <= rules.evaluate(p) <= MAX_SCORE
  }

  predicate Proper(s: Score)
  {
    s.Value? ==> MIN_SCORE <= s.v <= MAX_SCORE
  }

  /** Then every minimax value of the search is a proper score, unless a player ran out of
      moves; so the full window never cuts it off. */
  lemma {:induction false} MinimaxFits(rules: Rules, root: Position, initDepth: nat, n: nat, p: Position)
    requires EvaluationsFit(rules, root, initDepth) && initDepth < MAX_DEPTH
    requires n <= initDepth && Reach(rules, root, n, p)
    ensures Proper(Minimax(rules, p, initDepth - n))
    decreases initDepth - n, 1, 0
  {
    if n < initDepth && !rules.won(p) {
      LegalAmongIs(p, HH_SIZE);
      BestFits(rules, root, initDepth, n, p, Moves(p));
    }
  }

  lemma {:induction false} BestFits(rules: Rules, root: Position, initDepth: nat, n: nat, p: Position, moves: seq<Cell>)
    requires EvaluationsFit(rules, root, initDepth) && initDepth < MAX_DEPTH
    requires n < initDepth && Reach(rules, root, n, p) && !rules.won(p)
    requires forall c :: c in moves ==> Legal(p, c)
    ensures Proper(Best(rules, p, initDepth - n, moves))
    decreases initDepth - n, 0, |moves|
  {
    hide EvaluationsFit, Legal;
    if moves != [] {
      assert Legal(p, moves[0]);
      assert Reach(rules, root, n + 1, After(p, moves[0]));
      MinimaxFits(rules, root, initDepth, n + 1, After(p, moves[0]));
      BestFits(rules, root, initDepth, n, p, moves[1..]);
    }
  }

  /** Nobody runs out of moves before the game is decided. */
  ghost predicate NeverStuck(rules: Rules, root: Position, initDepth: nat)
  {
    forall n: nat, p {:trigger Reach(rules, root, n, p)} |
      n < initDepth && Reach(rules, root, n, p) && !rules.won(p) :: exists c :: Legal(p, c)
  }

  lemma {:induction false} MinimaxIsValue(rules: Rules, root: Position, initDepth: nat, n: nat, p: Position)
    requires NeverStuck(rules, root, initDepth) && n <= initDepth && Reach(rules, root, n, p)
    ensures Minimax(rules, p, initDepth - n).Value?
    decreases initDepth - n, 1, 0
  {
    if n < initDepth && !rules.won(p) {
      LegalAmongIs(p, HH_SIZE);
      var c :| Legal(p, c);
      assert c in Moves(p);
      BestIsValue(rules, root, initDepth, n, p, Moves(p));
    }
  }

  lemma {:induction false} BestIsValue(rules: Rules, root: Position, initDepth: nat, n: nat, p: Position,
      moves: seq<Cell>)
    requires NeverStuck(rules, root, initDepth) && n < initDepth && Reach(rules, root, n, p) && !rules.won(p)
    requires forall c :: c in moves ==> Legal(p, c)
    ensures moves == [] || Best(rules, p, initDepth - n, moves).Value?
    decreases initDepth - n, 0, |moves|
  {
    hide NeverStuck, Legal;
    if moves != [] {
      assert Legal(p, moves[0]);
      assert Reach(rules, root, n + 1, After(p, moves[0]));
      MinimaxIsValue(rules, root, initDepth, n + 1, After(p, moves[0]));
      BestIsValue(rules, root, initDepth, n, p, moves[1..]);
    }
  }

  // ---------- move generation ----------

  type BoardCell = c: Cell | OnBoard(c) witness Cell(0, 0)

  datatype Mover = Nobody | Mover(player: Player)

  datatype Movement = Movement(cell: BoardCell, mover: Mover, score: int)

  const NO_MOVEMENT := Movement(Cell(0, 0), Nobody, 0)

  /** Exactly the cells in the set are listed, each once, as moves of the player. */
  ghost predicate Lists(moves: seq<Movement>, cells: set<Cell>, player: Player)
  {
    && (forall m :: m in moves ==> m.cell in cells && m.mover == Mover(player))
    && (forall c :: c in cells ==> exists m :: m in moves && m.cell == c)
    && |moves| == |cells|
  }

  ghost function LegalCells(p: Position): set<Cell>
  {
    set c | c in Moves(p)
  }

  lemma LegalCellsIs(p: Position)
    ensures forall c :: c in LegalCells(p) <==> Legal(p, c)
  {
    LegalAmongIs(p, HH_SIZE);
  }

  ghost predicate Falling(moves: seq<Movement>)
  {
    forall i, j :: 0 <= i < j < |moves| ==> moves[i].score >= moves[j].score
  }

  /** A move to the edge takes the first place, and the move that was there goes to the end. */
  function AddForCat(moves: seq<Movement>, m: Movement): seq<Movement>
  {
    if m.score == 0 && moves != [] then [m] + moves[1..] + [moves[0]] else moves + [m]
  }

  lemma AddForCatLists(moves: seq<Movement>, m: Movement, cells: set<Cell>, player: Player)
    requires Lists(moves, cells, player) && m.cell !in cells && m.mover == Mover(player)
    ensures Lists(AddForCat(moves, m), cells + {m.cell}, player)
  {
    var added := AddForCat(moves, m);
    assert moves != [] ==> moves == [moves[0]] + moves[1..];
    assert forall x :: x in added <==> x == m || x in moves;
  }

  /** The scores are the distances to the edge, and an edge cell comes first if there is one. */
  ghost predicate EdgeFirst(moves: seq<Movement>)
  {
    forall m :: m in moves ==> m.score == EdgeDistance(m.cell) && (m.score == 0 ==> moves[0].score == 0)
  }

  lemma AddForCatEdge(moves: seq<Movement>, m: Movement)
    requires EdgeFirst(moves) && m.score == EdgeDistance(m.cell)
    ensures EdgeFirst(AddForCat(moves, m))
  {
    assert moves != [] ==> moves == [moves[0]] + moves[1..];
  }

  /** The neighbours of a cell, those in the first `n` directions. */
  ghost function Around(c: Cell, n: nat): set<Cell>
    requires n <= MAX_MOVEMENT
  {
    set way | 0 <= way < n :: Step(c, way)
  }

  lemma AroundGrows(c: Cell, way: nat)
    requires way < MAX_MOVEMENT
    ensures Around(c, way + 1) == Around(c, way) + {Step(c, way)} && Step(c, way) !in Around(c, way)
  {
    assert forall w | 0 <= w < way :: Step(c, w) != Step(c, way);
  }

  /** The cat's moves. A move to the edge is searched first. */
  method GenerateForCat(board: Board) returns (moves: seq<Movement>)
    requires board.turn == Cat
    ensures Lists(moves, LegalCells(board.Now()), Cat)
    ensures EdgeFirst(moves)
  {
    moves := [];
    ghost var p, done := board.Now(), {};
    for way := 0 to MAX_MOVEMENT
      invariant Lists(moves, done, Cat) && forall c :: c in done <==> Free(p, c) && c in Around(p.cat, way)
      invariant EdgeFirst(moves)
    {
      var c := Step(board.cat, way);
      AroundGrows(p.cat, way);
      if Free(board.Now(), c) {
        var m := Movement(c, Mover(Cat), EdgeDistance(c));
        AddForCatLists(moves, m, done, Cat);
        AddForCatEdge(moves, m);
        moves := AddForCat(moves, m);
        done := done + {c};
      }
    }
    LegalCellsIs(p);
    forall c ensures c in done <==> Legal(p, c) {
      assert Neighbours(p.cat, c) <==> c in Around(p.cat, MAX_MOVEMENT);
    }
    assert done == LegalCells(p);
  }

  /** Puts a move among moves with falling scores. */
  function Insert(moves: seq<Movement>, m: Movement): seq<Movement>
  {
    if moves == [] || m.score > moves[0].score then [m] + moves else [moves[0]] + Insert(moves[1..], m)
  }

  lemma {:induction false} InsertHas(moves: seq<Movement>, m: Movement)
    ensures forall x :: x in Insert(moves, m) <==> x == m || x in moves
    ensures |Insert(moves, m)| == |moves| + 1
    ensures Falling(moves) ==> Falling(Insert(moves, m))
  {
    if moves != [] {
      InsertHas(moves[1..], m);
      assert moves == [moves[0]] + moves[1..];
      if Falling(moves) && m.score <= moves[0].score {
        var rest := Insert(moves[1..], m);
        forall i | 0 <= i < |rest| ensures rest[i].score <= moves[0].score {
          assert rest[i] in rest;
        }
      }
    }
  }

  /** Stands for the library's sort: the same moves by falling score. */
  method SortFalling(moves: seq<Movement>) returns (sorted: seq<Movement>)
    ensures Falling(sorted) && |sorted| == |moves|
    ensures forall m :: m in sorted <==> m in moves
  {
    sorted := [];
    for i := 0 to |moves|
      invariant Falling(sorted) && |sorted| == i
      invariant forall m :: m in sorted <==> m in moves[..i]
    {
      InsertHas(sorted, moves[i]);
      sorted := Insert(sorted, moves[i]);
      assert moves[..i + 1] == moves[..i] + [moves[i]];
    }
    assert moves[..|moves|] == moves;
  }

  /** The unsigned difference of history count and distance, stored in a signed 32-bit field. */
  function HistoryScore(count: nat, distance: nat): int
  {
    var u := (count - distance) % UINT_SIZE;
    if u > INT_MAX then u - UINT_SIZE else u
  }

  /** It is the difference itself as long as a signed field can hold it. */
  lemma HistoryScoreIs(count: nat, distance: nat)
    requires -INT_MAX <= count - distance <= INT_MAX
    ensures HistoryScore(count, distance) == count - distance
  {
  }

  /** Each move has the score of its cell's history and its distance from the cat. */
  ghost predicate Scored(moves: seq<Movement>, cat: Cell, history: seq<nat>)
    requires |history| >= HH_SIZE
  {
    forall m :: m in moves ==>
      m.score == HistoryScore(history[m.cell.row * BOARD_SIZE_COL + m.cell.col],
        Abs(cat.row - m.cell.row) + Abs(cat.col - m.cell.col))
  }

  lemma NoneScored(cat: Cell, history: seq<nat>)
    requires |history| >= HH_SIZE
    ensures Scored([], cat, history)
  {
  }

  lemma OneScored(m: Movement, cat: Cell, history: seq<nat>)
    requires |history| >= HH_SIZE
    requires m.score == HistoryScore(history[m.cell.row * BOARD_SIZE_COL + m.cell.col],
      Abs(cat.row - m.cell.row) + Abs(cat.col - m.cell.col))
    ensures Scored([m], cat, history)
  {
  }

  lemma ScoredMore(moves: seq<Movement>, m: Movement, cat: Cell, history: seq<nat>)
    requires |history| >= HH_SIZE && Scored(moves, cat, history) && Scored([m], cat, history)
    ensures Scored(moves + [m], cat, history) == true
  {
    assert m in [m];
  }

  lemma ScoredSame(moves: seq<Movement>, sorted: seq<Movement>, cat: Cell, history: seq<nat>)
    requires |history| >= HH_SIZE && Scored(moves, cat, history) && forall m :: m in sorted <==> m in moves
    ensures Scored(sorted, cat, history) == true
  {
  }

  /** The catcher's moves, those with the best history first. */
  method GenerateForCatcher(board: Board, history: array<nat>) returns (moves: seq<Movement>)
    requires board.turn == Catcher && history.Length >= HH_SIZE
    ensures Lists(moves, LegalCells(board.Now()), Catcher) && Falling(moves)
    ensures Scored(moves, board.cat, history[..]) == true
  {
    hide LegalCells, Scored, HistoryScore;
    ghost var counts := history[..];
    assert Scored([], board.cat, counts) by { NoneScored(board.cat, counts); }
    var found: seq<Movement> := [];
    ghost var p, done := board.Now(), {};
    for row := 0 to BOARD_SIZE_ROW
      invariant Lists(found, done, Catcher) && forall c :: c in done <==> Free(p, c) && c.row < row
      invariant Scored(found, p.cat, counts)
    {
      for col := 0 to BOARD_SIZE_COL
        invariant Lists(found, done, Catcher) && Scored(found, p.cat, counts)
        invariant forall c :: c in done <==> Free(p, c) && (c.row < row || (c.row == row && c.col < col))
      {
        var c := Cell(col, row);
        if Free(board.Now(), c) {
          var distance := Abs(board.cat.row - row) + Abs(board.cat.col - col);
          var m := Movement(c, Mover(Catcher), HistoryScore(history[row * BOARD_SIZE_COL + col], distance));
          OneScored(m, p.cat, counts);
          ScoredMore(found, m, p.cat, counts);
          found := found + [m];
          done := done + {c};
        }
      }
    }
    moves := SortFalling(found);
    ScoredSame(found, moves, p.cat, counts);
    LegalCellsIs(p);
    assert done == LegalCells(p);
  }

  // ---------- the search ----------

  class Robot {
    const rules: Rules
    const hashtab: array<HashItem>
    /** The history counts of the catcher's moves, then those of the cat's. */
    const history: array<nat>
    /** The best moves of the search under way, one buffer for each depth. */
    const tracks: seq<array<Movement>>
    const movement: array<Movement>
    var initDepth: nat
    /** Where the search under way started. */
    ghost var root: Position

    ghost predicate Valid()
    {
      && hashtab.Length == HASH_SIZE && history.Length == 2 * HH_SIZE
      && |tracks| == MAX_DEPTH && movement.Length == MAX_DEPTH
      && (forall i :: 0 <= i < MAX_DEPTH ==> tracks[i].Length == MAX_DEPTH && tracks[i] != movement)
      && (forall i, j :: 0 <= i < j < MAX_DEPTH ==> tracks[i] != tracks[j])
    }

    ghost function TracksUpTo(depth: int): set<array<Movement>>
      requires |tracks| == MAX_DEPTH && depth < MAX_DEPTH
    {
      set i | 0 <= i <= depth :: tracks[i]
    }

    constructor (rules: Rules)
      ensures Valid() && this.rules == rules && fresh(hashtab) && fresh(history) && fresh(movement) && fresh(tracks)
    {
      this.rules := rules;
      hashtab := new HashItem[HASH_SIZE](_ => NO_ITEM);
      history := new nat[2 * HH_SIZE](_ => 0);
      var m := new Movement[MAX_DEPTH](_ => NO_MOVEMENT);
      movement := m;
      var buffers: seq<array<Movement>> := [];
      while |buffers| < MAX_DEPTH
        invariant |buffers| <= MAX_DEPTH && fresh(buffers) && m !in buffers
        invariant forall i :: 0 <= i < |buffers| ==> buffers[i].Length == MAX_DEPTH
        invariant forall i, j :: 0 <= i < j < |buffers| ==> buffers[i] != buffers[j]
      {
        var track := new Movement[MAX_DEPTH](_ => NO_MOVEMENT);
        buffers := buffers + [track];
      }
      tracks := buffers;
      initDepth, root := 0, Position({}, Cell(0, 0), Catcher);
    }

    /** The board stands at a position of the search, and the table and the keys are sound. */
    ghost predicate Searching(p: Position, depth: int)
      reads this, hashtab
    {
      && Valid() && 0 <= depth <= initDepth < MAX_DEPTH
      && Reach(rules, root, initDepth - depth, p)
      && HonestTable(rules, root, initDepth, hashtab[..])
      && KeysTell(rules, root, initDepth)
    }

    method ClearHashTab()
      requires Valid()
      modifies hashtab
      ensures forall i :: 0 <= i < HASH_SIZE ==> hashtab[i] == NO_ITEM
    {
      for i := 0 to HASH_SIZE
        invariant forall j :: 0 <= j < i ==> hashtab[j] == NO_ITEM
      {
        hashtab[i] := NO_ITEM;
      }
    }

    method LookUpHashTab(alpha: int, beta: int, depth: int, key: nat, player: Player) returns (score: int)
      requires Valid()
      ensures score == LookUp(hashtab[Slot(key, player)], alpha, beta, depth, key)
    {
      var item := hashtab[Slot(key, player)];
      if item.checksum != key {
        return INT_MAX;
      }
      if item.depth >= depth {
        match item.entry
        case Exact => return item.score;
        case LowerBound => if item.score >= beta { return item.score; }
        case UpperBound => if item.score <= alpha { return item.score; }
      }
      return INT_MAX;
    }

    method EnterHashTab(entry: Entry, score: int, depth: int, key: nat, player: Player)
      requires Valid()
      modifies hashtab
      ensures var slot := Slot(key, player);
        hashtab[..] == old(hashtab[..])[slot := Replace(old(hashtab[slot]), HashItem(key, depth, score, entry))]
    {
      var slot := Slot(key, player);
      var item := hashtab[slot];
      if item.checksum == key {
        if entry == Exact {
          hashtab[slot] := HashItem(key, depth, score, entry);
        }
      } else if item.checksum != 0 {
        if entry == Exact && item.entry != Exact {
          hashtab[slot] := HashItem(key, depth, score, entry);
        }
      } else {
        hashtab[slot] := HashItem(key, depth, score, entry);
      }
    }

    /** Enters a bound that is true of the position. */
    method EnterBound(entry: Entry, score: int, depth: int, ghost p: Position, key: nat, player: Player)
      requires Searching(p, depth) == true && key == Key(rules, p) && player == p.turn
      requires 0 < depth && !rules.won(p)
      requires Bounds(HashItem(key, depth, score, entry), Minimax(rules, p, depth))
      modifies hashtab
      ensures Searching(p, depth) == true
    {
      EnterKeepsHonest(rules, root, initDepth, hashtab[..], initDepth - depth, p, HashItem(key, depth, score, entry));
      EnterHashTab(entry, score, depth, key, player);
    }

    /** Twice as much for each level. */
    function Credit(depth: int): nat
      requires 0 <= depth
    {
      if depth == 0 then 2 else 2 * Credit(depth - 1)
    }

    /** One credit at each depth below, added up. */
    ghost function CreditsBelow(depth: nat): nat
    {
      if depth == 0 then 0 else CreditsBelow(depth - 1) + Credit(depth - 1)
    }

    /** A credit counts more than one at every depth below it together. */
    lemma {:induction false} CreditOutweighs(depth: nat)
      ensures Credit(depth) == CreditsBelow(depth) + 2
    {
      if depth > 0 {
        CreditOutweighs(depth - 1);
      }
    }

    /** Credits a move at its place in the half of its player. */
    method EnterHistoryTab(m: Movement, depth: int)
      requires Valid() && 0 <= depth
      modifies history
      ensures m.mover == Nobody ==> history[..] == old(history[..])
      ensures m.mover != Nobody ==>
        var index := (if m.mover.player == Catcher then 0 else HH_SIZE) + m.cell.row * BOARD_SIZE_COL + m.cell.col;
        history[..] == old(history[..])[index := (old(history[index]) + Credit(depth)) % UINT_SIZE]
    {
      if m.mover != Nobody {
        var index := (if m.mover.player == Catcher then 0 else HH_SIZE) + m.cell.row * BOARD_SIZE_COL + m.cell.col;
        history[index] := (history[index] + Credit(depth)) % UINT_SIZE;
      }
    }

    /** Enters the result of a position in the table, and its move in the history. */
    method Conclude(entry: Entry, score: int, depth: int, ghost p: Position, key: nat, player: Player, m: Movement)
      requires Searching(p, depth) == true && key == Key(rules, p) && player == p.turn && Valid()
      requires 0 < depth && !rules.won(p)
      requires Bounds(HashItem(key, depth, score, entry), Minimax(rules, p, depth))
      modifies hashtab, history
      ensures Searching(p, depth) == true
    {
      EnterBound(entry, score, depth, p, key, player);
      EnterHistoryTab(m, depth);
    }

    method ClearTrack(track: array<Movement>, count: int)
      requires 0 <= count <= track.Length
      modifies track
    {
      for i := 0 to count {
        track[i] := NO_MOVEMENT;
      }
    }

    method CopyTrack(to: array<Movement>, from: array<Movement>, count: int)
      requires 0 <= count <= to.Length == from.Length && to != from
      modifies to
      ensures to[..count] == from[..count]
    {
      for i := 0 to count
        invariant to[..i] == from[..i]
      {
        to[i] := from[i];
      }
    }

    method TakeMove(bestmv: array<Movement>, currentmv: array<Movement>, depth: int, m: Movement, score: int)
      requires 0 <= depth < bestmv.Length == currentmv.Length && bestmv != currentmv
      modifies bestmv
      ensures bestmv[..depth] == currentmv[..depth] && bestmv[depth] == Movement(m.cell, m.mover, score)
    {
      CopyTrack(bestmv, currentmv, depth);
      bestmv[depth] := Movement(m.cell, m.mover, score);
    }

    /** The move at `c` is legal and leads to a position worth `score`. */
    ghost predicate Attains(p: Position, depth: int, c: Cell, score: int)
      requires depth > 0
    {
      Legal(p, c) && Child(rules, p, depth, c) == Value(score)
    }

    /** Searches `depth` moves ahead with the window (alpha, beta). The result is fail-soft
        against plain minimax, board and recorder are as before, and unless the table had
        the answer the best move is left in `bestmv[depth]` when the score is inside. */
    method AlphaBetaSearch(board: Board, depth: int, alpha: int, beta: int, bestmv: array<Movement>)
      returns (score: int)
      requires Searching(board.Now(), depth) && alpha < beta
      requires bestmv.Length == MAX_DEPTH && bestmv !in TracksUpTo(depth)
      modifies board, hashtab, history, bestmv, TracksUpTo(depth)
      ensures board.Now() == old(board.Now()) && board.recorder == old(board.recorder)
      ensures Searching(board.Now(), depth) == true
      ensures FailSoft(Minimax(rules, board.Now(), depth), alpha, beta, score)
      ensures depth > 0 && !rules.won(board.Now()) && alpha < score < beta
        && old(LookUp(hashtab[Slot(Key(rules, board.Now()), board.turn)], alpha, beta, depth,
          Key(rules, board.Now()))) == INT_MAX
        ==> Attains(board.Now(), depth, bestmv[depth].cell, score)
      decreases depth, 1
    {
      if rules.won(board.Now()) {
        bestmv[depth] := Movement(bestmv[depth].cell, Mover(board.turn), -1);
        return WonScore(board.turn, depth);
      }
      var key := rules.hash(board.walls, board.cat);
      assert Open(rules, root, initDepth - depth, board.Now());
      score := LookUpHashTab(alpha, beta, depth, key, board.turn);
      if score != INT_MAX {
        HitAnswers(rules, board.Now(), hashtab[Slot(key, board.turn)], alpha, beta, depth);
        return;
      }
      if depth <= 0 {
        return rules.evaluate(board.Now());
      }
      if board.turn == Catcher {
        score := CatcherTurn(board, depth, alpha, beta, bestmv, key);
      } else {
        score := CatTurn(board, depth, alpha, beta, bestmv, key);
      }
    }

    /** Makes a move, searches what follows, and takes the move back. */
    method TryMove(board: Board, depth: int, alpha: int, beta: int, m: Movement, currentmv: array<Movement>)
      returns (score: int)
      requires Searching(board.Now(), depth) == true && alpha < beta && depth > 0 && currentmv == tracks[depth]
      requires !rules.won(board.Now()) && Legal(board.Now(), m.cell)
      modifies board, hashtab, history, TracksUpTo(depth)
      ensures board.Now() == old(board.Now()) && board.recorder == old(board.recorder)
      ensures Searching(board.Now(), depth) == true
      ensures FailSoft(Child(rules, board.Now(), depth, m.cell), alpha, beta, score)
      decreases depth - 1, 2
    {
      ghost var p := board.Now();
      var done := board.Move(m.cell);
      assert Reach(rules, root, initDepth - depth + 1, board.Now());
      score := AlphaBetaSearch(board, depth - 1, alpha, beta, currentmv);
      done := board.Undo();
      UndoInvertsMove(p, m.cell);
      assert board.recorder == old(board.recorder);
    }

    /** None of the moves is worth more than the score. */
    ghost predicate CatcherTried(p: Position, depth: int, moves: seq<Movement>, score: int)
      requires depth > 0
    {
      forall m :: m in moves ==> AtMost(Child(rules, p, depth, m.cell), score)
    }

    lemma CatcherTriedMore(p: Position, depth: int, moves: seq<Movement>, i: nat, score: int, better: int)
      requires depth > 0 && i < |moves| && CatcherTried(p, depth, moves[..i], score) == true
      requires score <= better && AtMost(Child(rules, p, depth, moves[i].cell), better)
      ensures CatcherTried(p, depth, moves[..i + 1], better) == true
    {
      assert moves[..i + 1] == moves[..i] + [moves[i]];
    }

    lemma CatcherCut(p: Position, depth: int, c: Cell, score: int)
      requires depth > 0 && !rules.won(p) && p.turn == Catcher && Legal(p, c)
      requires AtLeast(Child(rules, p, depth, c), score)
      ensures AtLeast(Minimax(rules, p, depth), score)
    {
      MinimaxOverMoves(rules, p, depth, score);
    }

    lemma CatcherDone(p: Position, depth: int, moves: seq<Movement>, score: int, exact: bool, best: Cell)
      requires depth > 0 && !rules.won(p) && p.turn == Catcher && Lists(moves, LegalCells(p), Catcher)
      requires CatcherTried(p, depth, moves, score) == true
      requires exact ==> Attains(p, depth, best, score)
      ensures AtMost(Minimax(rules, p, depth), score) && (exact ==> Minimax(rules, p, depth) == Value(score))
    {
      LegalCellsIs(p);
      MinimaxOverMoves(rules, p, depth, score);
    }

    /** The catcher's turn: takes the greatest score, raises alpha, and cuts at beta. */
    method CatcherTurn(board: Board, depth: int, alpha0: int, beta: int, bestmv: array<Movement>, key: nat)
      returns (score: int)
      requires Searching(board.Now(), depth) == true && alpha0 < beta && depth > 0
      requires board.turn == Catcher && !rules.won(board.Now()) && key == Key(rules, board.Now())
      requires bestmv.Length == MAX_DEPTH && bestmv !in TracksUpTo(depth)
      modifies board, hashtab, history, bestmv, TracksUpTo(depth)
      ensures board.Now() == old(board.Now()) && board.recorder == old(board.recorder)
      ensures Searching(board.Now(), depth) == true
      ensures FailSoft(Minimax(rules, board.Now(), depth), alpha0, beta, score)
      ensures alpha0 < score < beta ==> Attains(board.Now(), depth, bestmv[depth].cell, score)
      decreases depth, 0
    {
      hide Minimax, Reach, HonestTable, After;
      var alpha := alpha0;
      var currentmv := tracks[depth];
      ClearTrack(currentmv, depth + 1);
      ghost var p, worth := board.Now(), Minimax(rules, board.Now(), depth);
      var exact := false;
      var moves := GenerateForCatcher(board, history);
      LegalCellsIs(p);
      for i := 0 to |moves|
        invariant board.Now() == p && board.recorder == old(board.recorder) && Searching(p, depth) == true
        invariant alpha0 <= alpha < beta && (!exact ==> alpha == alpha0)
        invariant CatcherTried(p, depth, moves[..i], alpha) == true
        invariant exact ==> alpha0 < alpha < beta && Attains(p, depth, bestmv[depth].cell, alpha)
      {
        var m := moves[i];
        assert m in moves;
        score := TryMove(board, depth, alpha, beta, m, currentmv);
        if score >= beta {
          CatcherCut(p, depth, m.cell, score);
          Conclude(LowerBound, score, depth, p, key, board.turn, m);
          return score;
        }
        CatcherTriedMore(p, depth, moves, i, alpha, if score > alpha then score else alpha);
        if score > alpha {
          TakeMove(bestmv, currentmv, depth, m, score);
          alpha := score;
          exact := true;
        }
      }
      assert moves[..|moves|] == moves;
      CatcherDone(p, depth, moves, alpha, exact, bestmv[depth].cell);
      Conclude(if exact then Exact else UpperBound, alpha, depth, p, key, board.turn, bestmv[depth]);
      return alpha;
    }

    /** None of the moves is worth less than the score. */
    ghost predicate CatTried(p: Position, depth: int, moves: seq<Movement>, score: int)
      requires depth > 0
    {
      forall m :: m in moves ==> AtLeast(Child(rules, p, depth, m.cell), score)
    }

    lemma CatTriedMore(p: Position, depth: int, moves: seq<Movement>, i: nat, score: int, better: int)
      requires depth > 0 && i < |moves| && CatTried(p, depth, moves[..i], score) == true
      requires better <= score && AtLeast(Child(rules, p, depth, moves[i].cell), better)
      ensures CatTried(p, depth, moves[..i + 1], better) == true
    {
      assert moves[..i + 1] == moves[..i] + [moves[i]];
    }

    lemma CatCut(p: Position, depth: int, c: Cell, score: int)
      requires depth > 0 && !rules.won(p) && p.turn == Cat && Legal(p, c)
      requires AtMost(Child(rules, p, depth, c), score)
      ensures AtMost(Minimax(rules, p, depth), score)
    {
      MinimaxOverMoves(rules, p, depth, score);
    }

    lemma CatDone(p: Position, depth: int, moves: seq<Movement>, score: int, exact: bool, best: Cell)
      requires depth > 0 && !rules.won(p) && p.turn == Cat && Lists(moves, LegalCells(p), Cat)
      requires CatTried(p, depth, moves, score) == true
      requires exact ==> Attains(p, depth, best, score)
      ensures AtLeast(Minimax(rules, p, depth), score) && (exact ==> Minimax(rules, p, depth) == Value(score))
    {
      LegalCellsIs(p);
      MinimaxOverMoves(rules, p, depth, score);
    }

    /** The cat's turn: takes the least score, lowers beta, and cuts at alpha. */
    method CatTurn(board: Board, depth: int, alpha: int, beta0: int, bestmv: array<Movement>, key: nat)
      returns (score: int)
      requires Searching(board.Now(), depth) == true && alpha < beta0 && depth > 0
      requires board.turn == Cat && !rules.won(board.Now()) && key == Key(rules, board.Now())
      requires bestmv.Length == MAX_DEPTH && bestmv !in TracksUpTo(depth)
      modifies board, hashtab, history, bestmv, TracksUpTo(depth)
      ensures board.Now() == old(board.Now()) && board.recorder == old(board.recorder)
      ensures Searching(board.Now(), depth) == true
      ensures FailSoft(Minimax(rules, board.Now(), depth), alpha, beta0, score)
      ensures alpha < score < beta0 ==> Attains(board.Now(), depth, bestmv[depth].cell, score)
      decreases depth, 0
    {
      hide Minimax, HonestTable, AtMost;
      var beta := beta0;
      var currentmv := tracks[depth];
      ClearTrack(currentmv, depth + 1);
      ghost var p, worth := board.Now(), Minimax(rules, board.Now(), depth);
      var exact := false;
      var moves := GenerateForCat(board);
      LegalCellsIs(p);
      for i := 0 to |moves|
        invariant board.Now() == p && board.recorder == old(board.recorder) && Searching(p, depth) == true
        invariant alpha < beta <= beta0 && (!exact ==> beta == beta0)
        invariant CatTried(p, depth, moves[..i], beta) == true
        invariant exact ==> alpha < beta < beta0 && Attains(p, depth, bestmv[depth].cell, beta)
      {
        var m := moves[i];
        assert m in moves;
        score := TryMove(board, depth, alpha, beta, m, currentmv);
        if score <= alpha {
          CatCut(p, depth, m.cell, score);
          Conclude(UpperBound, score, depth, p, key, board.turn, m);
          return score;
        }
        CatTriedMore(p, depth, moves, i, beta, if score < beta then score else beta);
        if score < beta {
          TakeMove(bestmv, currentmv, depth, m, score);
          beta := score;
          exact := true;
        }
      }
      assert moves[..|moves|] == moves;
      CatDone(p, depth, moves, beta, exact, bestmv[depth].cell);
      Conclude(if exact then Exact else LowerBound, beta, depth, p, key, board.turn, bestmv[depth]);
      return beta;
    }

    /** Searches from the board with the full window. When the evaluations are proper scores and
        no player runs out of moves, the result is the minimax value, and the move stored for
        the root attains it. */
    method StartSearch(board: Board, depth: nat) returns (score: int)
      requires Valid() && depth < MAX_DEPTH
      requires KeysTell(rules, board.Now(), depth) && ZeroKeyHarmless(rules, board.Now(), depth)
      modifies this, board, hashtab, history, movement, TracksUpTo(MAX_DEPTH - 1)
      ensures Valid() && board.Now() == old(board.Now()) && board.recorder == old(board.recorder)
      ensures FailSoft(Minimax(rules, board.Now(), depth), MIN_SCORE - 1, MAX_SCORE + 1, score)
      ensures var worth := Minimax(rules, board.Now(), depth);
        EvaluationsFit(rules, board.Now(), depth) && worth.Value? ==>
          && score == worth.v
          && (depth > 0 && !rules.won(board.Now()) ==> Attains(board.Now(), depth, movement[depth].cell, score))
    {
      initDepth := depth;
      root := board.Now();
      if EvaluationsFit(rules, root, depth) {
        MinimaxFits(rules, root, depth, 0, root);
      }
      ClearHashTab();
      ClearedTable(rules, root, initDepth, hashtab[..]);
      ClearTrack(movement, MAX_DEPTH);
      score := AlphaBetaSearch(board, depth, MIN_SCORE - 1, MAX_SCORE + 1, movement);
    }
  }
}
