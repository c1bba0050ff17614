/** The best-first search for the cat's way out: an ordered intrusive list over a static
    array with one node for each cell. A pointer to a node is its place in the array. */
module EscapeSearch {
  import opened Basics
  import opened HexBoards

  const CELLS := BOARD_SIZE_COL * BOARD_SIZE_ROW
  const NULL := -1

  datatype SearchNode = Unclaimed | SearchNode(father: int, next: int, move: int, depth: int, evaluate: int)

  function Index(c: Cell): int
  {
    c.row * BOARD_SIZE_COL + c.col
  }

  function CellOf(i: int): Cell
  {
    Cell(i % BOARD_SIZE_COL, i / BOARD_SIZE_COL)
  }

  lemma IndexRoundTrip(c: Cell)
    requires OnBoard(c)
    ensures 0 <= Index(c) < CELLS && CellOf(Index(c)) == c
  {
  }

  // ---------- walks ----------

  /** A way the cat can go: from its cell by steps onto unoccupied cells. */
  ghost predicate Walk(walls: set<Cell>, cat: Cell, w: seq<Cell>)
  {
    && w != [] && w[0] == cat
    && forall i | 1 <= i < |w| :: Unoccupied(walls, cat, w[i]) && Neighbours(w[i - 1], w[i])
  }

  /** A walk that ends at the edge of the board. */
  ghost predicate Escape(walls: set<Cell>, cat: Cell, w: seq<Cell>)
  {
    Walk(walls, cat, w) && EdgeDistance(w[|w| - 1]) == 0
  }

  /** A free cell at the edge is one step away. */
  ghost predicate EdgeNext(walls: set<Cell>, cat: Cell)
  {
    exists c :: Unoccupied(walls, cat, c) && Neighbours(cat, c) && EdgeDistance(c) == 0
  }

  /** Every step brings the edge nearer by at most one, so no escape is shorter than the
      distance of the start. */
  lemma {:induction false} WalkLongEnough(walls: set<Cell>, cat: Cell, w: seq<Cell>)
    requires Walk(walls, cat, w)
    ensures EdgeDistance(w[|w| - 1]) >= EdgeDistance(cat) - (|w| - 1)
  {
    if |w| > 1 {
      var shorter := w[..|w| - 1];
      WalkLongEnough(walls, cat, shorter);
      assert Neighbours(w[|w| - 2], w[|w| - 1]);
      var way :| 0 <= way < MAX_MOVEMENT && Step(w[|w| - 2], way) == w[|w| - 1];
      StepNearEdge(w[|w| - 2], way);
    }
  }

  datatype Side = West | East | North | South

  function Towards(from: Cell, side: Side, n: int): Cell
  {
    match side
    case West => Cell(from.col - n, from.row)
    case East => Cell(from.col + n, from.row)
    case North => Cell(from.col, from.row - n)
    case South => Cell(from.col, from.row + n)
  }

  function Straight(from: Cell, side: Side, n: nat): seq<Cell>
  {
    seq(n + 1, i => Towards(from, side, i))
  }

  lemma StraightWalks(cat: Cell, side: Side, n: nat)
    requires OnBoard(cat) && OnBoard(Towards(cat, side, n))
    ensures Walk({}, cat, Straight(cat, side, n))
  {
    hide Neighbours;
    var w := Straight(cat, side, n);
    forall i | 1 <= i < |w| ensures Unoccupied({}, cat, w[i]) && Neighbours(w[i - 1], w[i]) {
      NeighboursTouch(w[i - 1], w[i]);
    }
  }

  /** On the empty board the distance of the cat is exactly the number of steps of the shortest way
      out. */
  lemma DistanceIsExact(cat: Cell, n: nat)
    requires OnBoard(cat)
    ensures EdgeDistance(cat) <= n <==> exists w :: Escape({}, cat, w) && |w| - 1 <= n
  {
    if w :| Escape({}, cat, w) && |w| - 1 <= n {
      WalkLongEnough({}, cat, w);
    }
    var d := EdgeDistance(cat);
    if d == 0 {
      assert Escape({}, cat, [cat]);
    } else {
      var side := if d == cat.col then West
        else if d == BOARD_SIZE_COL - cat.col - 1 then East
        else if d == cat.row then North
        else South;
      StraightWalks(cat, side, d);
      assert Escape({}, cat, Straight(cat, side, d));
    }
  }

  // ---------- the list ----------

  ghost predicate Claimed(ns: seq<SearchNode>, list: seq<int>)
  {
    forall k {:trigger list[k]} | 0 <= k < |list| :: 0 <= list[k] < |ns| && ns[list[k]].SearchNode?
  }

  function NextAt(list: seq<int>, k: int): int
    requires 0 <= k < |list|
  {
    if k == |list| - 1 then NULL else list[k + 1]
  }

  /** Each node of the list points to the next one. */
  ghost predicate Chain(ns: seq<SearchNode>, list: seq<int>)
    requires Claimed(ns, list)
  {
    forall k {:trigger NextAt(list, k)} | 0 <= k < |list| :: ns[list[k]].next == NextAt(list, k)
  }

  ghost predicate Sorted(ns: seq<SearchNode>, list: seq<int>)
    requires Claimed(ns, list)
  {
    forall j, k :: 0 <= j < k < |list| ==> ns[list[j]].evaluate <= ns[list[k]].evaluate
  }

  ghost function Inserted(list: seq<int>, at: nat, node: int): seq<int>
    requires at <= |list|
  {
    list[..at] + [node] + list[at..]
  }

  function LinkedIn(ns: seq<SearchNode>, node: int, nm: int, nn: int): seq<SearchNode>
    requires 0 <= node < |ns| && 0 <= nm < |ns| && ns[node].SearchNode? && ns[nm].SearchNode?
  {
    var linked := ns[node := ns[node].(next := nn)];
    linked[nm := linked[nm].(next := node)]
  }

  lemma InsertedHas(list: seq<int>, at: nat, node: int)
    requires at <= |list| && Distinct(list) && node !in list
    ensures Distinct(Inserted(list, at, node))
    ensures forall i :: i in Inserted(list, at, node) <==> i in list || i == node
  {
    assert list == list[..at] + list[at..];
    assert forall j | 0 <= j < |list| :: list[j] in list;
  }

  lemma InsertedSorted(ns: seq<SearchNode>, list: seq<int>, at: nat, node: int)
    requires at <= |list| && 0 <= node < |ns| && ns[node].SearchNode? && Claimed(ns, list) && Sorted(ns, list)
    requires forall j :: 0 <= j < at ==> ns[list[j]].evaluate <= ns[node].evaluate
    requires forall j :: at <= j < |list| ==> ns[node].evaluate <= ns[list[j]].evaluate
    ensures Claimed(ns, Inserted(list, at, node)) && Sorted(ns, Inserted(list, at, node))
  {
    var list' := Inserted(list, at, node);
    forall k | 0 <= k < |list'| ensures list'[k] == if k < at then list[k] else if k == at then node else list[k - 1] {
    }
  }

  lemma InsertedChain(ns: seq<SearchNode>, list: seq<int>, at: nat, node: int)
    requires 0 < at <= |list| && 0 <= node < |ns| && ns[node].SearchNode? && node !in list && Distinct(list)
    requires Claimed(ns, list) && Chain(ns, list)
    ensures var ns' := LinkedIn(ns, node, list[at - 1], NextAt(list, at - 1));
      Claimed(ns', Inserted(list, at, node)) && Chain(ns', Inserted(list, at, node))
  {
    var ns', list' := LinkedIn(ns, node, list[at - 1], NextAt(list, at - 1)), Inserted(list, at, node);
    forall k | 0 <= k < |list'|
      ensures 0 <= list'[k] < |ns'| && ns'[list'[k]].SearchNode? && ns'[list'[k]].next == NextAt(list', k)
    {
      var j := if k < at then k else k - 1;
      assert k != at ==> list'[k] == list[j] && list[j] in list;
      assert ns[list[j]].next == NextAt(list, j);
    }
  }

  lemma SortedStays(ns: seq<SearchNode>, ns': seq<SearchNode>, list: seq<int>)
    requires Claimed(ns, list) && Sorted(ns, list) && SameButNext(ns, ns')
    ensures Claimed(ns', list) && Sorted(ns', list)
  {
  }

  /** Only `next` pointers differ. */
  ghost predicate SameButNext(ns: seq<SearchNode>, ns': seq<SearchNode>)
  {
    |ns| == |ns'| && forall i {:trigger ns[i]} {:trigger ns'[i]} | 0 <= i < |ns| ::
      if ns[i].SearchNode? then ns'[i].SearchNode? && ns'[i].(next := 0) == ns[i].(next := 0) else ns'[i] == ns[i]
  }

  /** A listed node: its estimate is its depth plus the distance to the edge, and it is one
      legal step away from its father, which is listed too. */
  ghost predicate Node(ns: seq<SearchNode>, list: seq<int>, walls: set<Cell>, cat: Cell, i: int)
  {
    && 0 <= i < |ns| && ns[i].SearchNode?
    && ns[i].evaluate == ns[i].depth + EdgeDistance(CellOf(i)) && 0 <= ns[i].depth
    && if ns[i].father == NULL then CellOf(i) == cat && ns[i].depth == 0
       else Stepped(ns, list, walls, cat, i, ns[i])
  }

  ghost predicate Stepped(ns: seq<SearchNode>, list: seq<int>, walls: set<Cell>, cat: Cell, i: int, n: SearchNode)
    requires n.SearchNode?
  {
    && n.father in list && 0 <= n.father < |ns| && ns[n.father].SearchNode?
    && n.depth == ns[n.father].depth + 1
    && 0 <= n.move < MAX_MOVEMENT && Step(CellOf(n.father), n.move) == CellOf(i)
    && Unoccupied(walls, cat, CellOf(i))
  }

  ghost predicate Nodes(ns: seq<SearchNode>, list: seq<int>, walls: set<Cell>, cat: Cell)
  {
    forall i {:trigger Node(ns, list, walls, cat, i)} :: i in list ==> Node(ns, list, walls, cat, i)
  }

  lemma NodesStay(ns: seq<SearchNode>, ns': seq<SearchNode>, list: seq<int>, list': seq<int>, node: int,
      walls: set<Cell>, cat: Cell)
    requires Nodes(ns, list, walls, cat) && Node(ns, list, walls, cat, node) && SameButNext(ns, ns')
    requires forall i :: i in list' <==> i in list || i == node
    ensures Nodes(ns', list', walls, cat)
  {
    forall i | i in list' ensures Node(ns', list', walls, cat, i) {
      assert Node(ns, list, walls, cat, i);
      assert ns[i].(next := 0) == ns'[i].(next := 0);
      if ns[i].father != NULL {
        assert ns[ns[i].father].(next := 0) == ns'[ns[i].father].(next := 0);
      }
    }
  }

  /** No node is deeper than its place in the list. */
  ghost predicate Shallow(ns: seq<SearchNode>, list: seq<int>)
    requires Claimed(ns, list)
  {
    forall k {:trigger ns[list[k]]} | 0 <= k < |list| :: ns[list[k]].depth <= k
  }

  lemma {:induction false} AtMostCells(list: seq<int>, n: nat)
    requires Distinct(list) && forall i :: i in list ==> 0 <= i < n
    ensures |list| <= n
    decreases n
  {
    if list != [] {
      assert list[0] in list;
      if n - 1 in list {
        var k :| 0 <= k < |list| && list[k] == n - 1;
        var rest := list[..k] + list[k + 1..];
        assert forall i :: i in rest ==> i in list && i != n - 1;
        AtMostCells(rest, n - 1);
      } else {
        AtMostCells(list, n - 1);
      }
    }
  }

  lemma ShallowStays(ns: seq<SearchNode>, ns': seq<SearchNode>, list: seq<int>, at: nat, node: int)
    requires at <= |list| && 0 <= node < |ns| && ns[node].SearchNode? && Claimed(ns, list) && Shallow(ns, list)
    requires SameButNext(ns, ns') && ns[node].depth <= at && Claimed(ns', Inserted(list, at, node))
    ensures Shallow(ns', Inserted(list, at, node))
  {
    var list' := Inserted(list, at, node);
    forall k | 0 <= k < |list'| ensures ns'[list'[k]].depth <= k {
      var i := list'[k];
      assert k != at ==> i == list[if k < at then k else k - 1];
      assert ns'[i].(next := 0) == ns[i].(next := 0);
    }
  }

  /** The list has each claimed node once, by rising estimate; `extra` may be claimed and
      not listed yet. */
  ghost predicate ListedIn(ns: seq<SearchNode>, list: seq<int>, head: int, walls: set<Cell>, cat: Cell, extra: int)
  {
    && |ns| == CELLS && OnBoard(cat)
    && list != [] && list[0] == head == Index(cat)
    && Distinct(list) && Claimed(ns, list) && Chain(ns, list) && Sorted(ns, list)
    && Nodes(ns, list, walls, cat) && Shallow(ns, list)
    && (forall i :: 0 <= i < CELLS && ns[i].SearchNode? ==> i in list || i == extra)
  }

  lemma InsertedFront(list: seq<int>, at: nat, node: int, n: nat)
    requires n <= at <= |list|
    ensures |Inserted(list, at, node)| == |list| + 1 && Inserted(list, at, node)[..n] == list[..n]
  {
  }

  lemma LinkedInListed(ns: seq<SearchNode>, list: seq<int>, head: int, walls: set<Cell>, cat: Cell, node: int, at: nat)
    requires ListedIn(ns, list, head, walls, cat, node) && Node(ns, list, walls, cat, node) && node !in list
    requires 0 < at <= |list| && ns[list[at - 1]].evaluate <= ns[node].evaluate
    requires at < |list| ==> ns[node].evaluate <= ns[list[at]].evaluate
    requires ns[node].depth <= at
    ensures var ns' := LinkedIn(ns, node, list[at - 1], NextAt(list, at - 1));
      ListedIn(ns', Inserted(list, at, node), head, walls, cat, NULL) && SameButNext(ns, ns')
  {
    var ns', list' := LinkedIn(ns, node, list[at - 1], NextAt(list, at - 1)), Inserted(list, at, node);
    assert list[at - 1] in list;
    assert SameButNext(ns, ns');
    InsertedHas(list, at, node);
    InsertedSorted(ns, list, at, node);
    InsertedChain(ns, list, at, node);
    SortedStays(ns, ns', list');
    ShallowStays(ns, ns', list, at, node);
    NodesStay(ns, ns', list, list', node, walls, cat);
  }

  /** Filling a node that is not claimed touches nothing listed. */
  lemma FilledListed(ns: seq<SearchNode>, list: seq<int>, head: int, walls: set<Cell>, cat: Cell, node: int,
      filled: SearchNode)
    requires ListedIn(ns, list, head, walls, cat, NULL) == true && 0 <= node < CELLS && |ns| == CELLS
    requires ns[node].Unclaimed?
    ensures node !in list && ListedIn(ns[node := filled], list, head, walls, cat, node) == true
  {
    var ns' := ns[node := filled];
    assert node in list ==> Node(ns, list, walls, cat, node);
    assert forall j | 0 <= j < |list| :: list[j] in list && ns'[list[j]] == ns[list[j]];
    assert Claimed(ns', list);
    forall j | 0 <= j < |list| ensures ns'[list[j]].next == NextAt(list, j) {
    }
    assert Chain(ns', list) && Sorted(ns', list) && Shallow(ns', list);
    forall i | i in list ensures Node(ns', list, walls, cat, i) {
      assert Node(ns, list, walls, cat, i);
    }
    assert Nodes(ns', list, walls, cat);
  }

  /** The new node of an unoccupied neighbour of the listed node `father` is a proper one. */
  lemma FilledNode(ns: seq<SearchNode>, list: seq<int>, walls: set<Cell>, cat: Cell, father: int, way: int, c: Cell)
    requires father in list && Node(ns, list, walls, cat, father) && 0 <= way < MAX_MOVEMENT
    requires c == Step(CellOf(father), way) && Unoccupied(walls, cat, c) && |ns| == CELLS && Index(c) != father
    ensures 0 <= Index(c) < CELLS
    ensures var ns' := ns[Index(c) := Init(c, way, father, ns[father].depth + 1)];
      Node(ns', list, walls, cat, Index(c)) && ns'[father].evaluate <= ns'[Index(c)].evaluate
  {
    IndexRoundTrip(c);
    StepNearEdge(CellOf(father), way);
  }

  function Init(c: Cell, move: int, father: int, depth: int): SearchNode
  {
    SearchNode(father, NULL, move, depth, depth + EdgeDistance(c))
  }

  /** The walk along the fathers of a node. */
  ghost function WalkTo(ns: seq<SearchNode>, list: seq<int>, walls: set<Cell>, cat: Cell, i: int): seq<Cell>
    requires Nodes(ns, list, walls, cat) && i in list
    decreases if Node(ns, list, walls, cat, i) then ns[i].depth else 0
  {
    assert Node(ns, list, walls, cat, i);
    if ns[i].father == NULL then [cat]
    else
      assert Node(ns, list, walls, cat, ns[i].father);
      WalkTo(ns, list, walls, cat, ns[i].father) + [CellOf(i)]
  }

  lemma {:induction false} FathersWalk(ns: seq<SearchNode>, list: seq<int>, walls: set<Cell>, cat: Cell, i: int)
    requires Nodes(ns, list, walls, cat) && i in list
    ensures var w := WalkTo(ns, list, walls, cat, i);
      Node(ns, list, walls, cat, i) && Walk(walls, cat, w) && |w| == ns[i].depth + 1 && w[|w| - 1] == CellOf(i)
    decreases if Node(ns, list, walls, cat, i) then ns[i].depth else 0
  {
    assert Node(ns, list, walls, cat, i);
    if ns[i].father != NULL {
      assert Node(ns, list, walls, cat, ns[i].father);
      FathersWalk(ns, list, walls, cat, ns[i].father);
    }
  }

  /** The free neighbours of `i` in the first `n` directions are listed. */
  ghost predicate Expanded(list: seq<int>, walls: set<Cell>, cat: Cell, i: int, n: int)
    requires n <= MAX_MOVEMENT
  {
    forall way | 0 <= way < n :: Unoccupied(walls, cat, Step(CellOf(i), way)) ==> Index(Step(CellOf(i), way)) in list
  }

  /** The nodes before place `k` are expanded, and that at `k` in the first `way` directions. */
  ghost predicate Covered(list: seq<int>, walls: set<Cell>, cat: Cell, k: int, way: int)
    requires 0 <= k < |list| && way <= MAX_MOVEMENT
  {
    && (forall j {:trigger list[j]} | 0 <= j < k :: Expanded(list, walls, cat, list[j], MAX_MOVEMENT))
    && Expanded(list, walls, cat, list[k], way)
  }

  lemma CoveredMore(list: seq<int>, list': seq<int>, walls: set<Cell>, cat: Cell, k: int, way: int)
    requires 0 <= k < |list| && 0 <= way < MAX_MOVEMENT && Covered(list, walls, cat, k, way)
    requires k < |list'| && list'[..k + 1] == list[..k + 1] && forall i :: i in list ==> i in list'
    requires Unoccupied(walls, cat, Step(CellOf(list[k]), way)) ==> Index(Step(CellOf(list[k]), way)) in list'
    ensures Covered(list', walls, cat, k, way + 1)
  {
    forall j | 0 <= j <= k ensures list'[j] == list[j] {
      assert list'[..k + 1][j] == list[..k + 1][j];
    }
  }

  ghost predicate NoEdge(list: seq<int>)
  {
    forall i :: i in list ==> EdgeDistance(CellOf(i)) != 0
  }

  /** When every listed node is expanded, whatever the cat can reach is listed. */
  lemma {:induction false} ReachIsListed(list: seq<int>, walls: set<Cell>, cat: Cell, w: seq<Cell>)
    requires OnBoard(cat) && Index(cat) in list && Walk(walls, cat, w)
    requires forall i :: i in list ==> Expanded(list, walls, cat, i, MAX_MOVEMENT)
    ensures OnBoard(w[|w| - 1]) && Index(w[|w| - 1]) in list
  {
    if |w| > 1 {
      var from, to := w[|w| - 2], w[|w| - 1];
      ReachIsListed(list, walls, cat, w[..|w| - 1]);
      assert Neighbours(from, to) && Unoccupied(walls, cat, to);
      var way :| 0 <= way < MAX_MOVEMENT && Step(from, way) == to;
      IndexRoundTrip(from);
      assert Expanded(list, walls, cat, Index(from), MAX_MOVEMENT);
    }
  }

  /** Then there is an escape only if a listed cell is at the edge. */
  lemma NoEscape(list: seq<int>, walls: set<Cell>, cat: Cell)
    requires OnBoard(cat) && Index(cat) in list && NoEdge(list)
    requires forall i :: i in list ==> Expanded(list, walls, cat, i, MAX_MOVEMENT)
    ensures forall w :: !Escape(walls, cat, w)
  {
    forall w | Walk(walls, cat, w) ensures EdgeDistance(w[|w| - 1]) != 0 {
      ReachIsListed(list, walls, cat, w);
      IndexRoundTrip(w[|w| - 1]);
    }
  }

  /** As long as no listed cell is at the edge, an expanded cat has no edge cell beside it. */
  lemma NoEdgeNext(list: seq<int>, walls: set<Cell>, cat: Cell)
    requires OnBoard(cat) && NoEdge(list) && Expanded(list, walls, cat, Index(cat), MAX_MOVEMENT)
    ensures !EdgeNext(walls, cat)
  {
    IndexRoundTrip(cat);
    forall c | Unoccupied(walls, cat, c) && Neighbours(cat, c) ensures EdgeDistance(c) != 0 {
      var way :| 0 <= way < MAX_MOVEMENT && Step(cat, way) == c;
      IndexRoundTrip(c);
      assert Index(c) in list;
    }
  }

  class Evaluator {
    const nodes: array<SearchNode>
    const walls: set<Cell>
    const cat: Cell
    var head: int
    var closed: int
    var succeeded: int
    /** The list from the head on. */
    ghost var list: seq<int>

    constructor (walls: set<Cell>, cat: Cell)
      requires OnBoard(cat)
      ensures this.walls == walls && this.cat == cat && nodes.Length == CELLS && fresh(nodes)
      ensures head == closed == succeeded == NULL && list == []
      ensures forall i :: 0 <= i < CELLS ==> nodes[i].Unclaimed?
    {
      this.walls, this.cat := walls, cat;
      nodes := new SearchNode[CELLS](_ => Unclaimed);
      head, closed, succeeded, list := NULL, NULL, NULL, [];
    }

    ghost predicate Listed(extra: int)
      reads this`list, this`head, nodes
    {
      ListedIn(nodes[..], list, head, walls, cat, extra)
    }

    /** Claims the node of a cell, unless it is claimed already. */
    method NewNode(c: Cell, move: int, father: int) returns (node: int)
      requires nodes.Length == CELLS && OnBoard(c)
      requires father != NULL ==> 0 <= father < CELLS && nodes[father].SearchNode?
      modifies nodes
      ensures var depth := if father == NULL then 0 else old(nodes[father].depth) + 1;
        if old(nodes[Index(c)].SearchNode?) then node == NULL && nodes[..] == old(nodes[..])
        else node == Index(c) && nodes[..] == old(nodes[..])[Index(c) := Init(c, move, father, depth)]
    {
      node := Index(c);
      if nodes[node].SearchNode? {
        return NULL;
      }
      nodes[node] := Init(c, move, father, if father == NULL then 0 else nodes[father].depth + 1);
    }

    /** Inserts a claimed node behind the closed one, before the first larger estimate. */
    method Insert(node: int, ghost k: int)
      requires Listed(node) == true && Node(nodes[..], list, walls, cat, node) == true && node !in list
      requires 0 <= k < |list| && closed == list[k] && nodes[closed].evaluate <= nodes[node].evaluate
      requires nodes[node].depth <= k + 1
      modifies nodes, this`list
      ensures Listed(NULL) == true && SameButNext(old(nodes[..]), nodes[..])
      ensures k < |list| && list[..k + 1] == old(list[..k + 1]) && |list| == |old(list)| + 1
      ensures forall i :: i in list <==> i in old(list) || i == node
    {
      var nm, nn, at := FindPlace(node, k);
      InsertedFront(list, at, node, k + 1);
      LinkIn(node, nm, nn, at);
    }

    /** The place behind the closed node, before the first larger estimate. */
    method FindPlace(node: int, ghost k: int) returns (nm: int, nn: int, ghost at: int)
      requires Listed(node) == true && 0 <= node < nodes.Length && nodes[node].SearchNode?
      requires 0 <= k < |list| && 0 <= closed < nodes.Length && nodes[closed].SearchNode?
      requires closed == list[k] && nodes[closed].evaluate <= nodes[node].evaluate
      ensures k < at <= |list| && nm == list[at - 1] && nn == NextAt(list, at - 1)
      ensures 0 <= nm < nodes.Length && nodes[nm].SearchNode? && nodes[nm].evaluate <= nodes[node].evaluate
      ensures at < |list| ==> 0 <= list[at] < nodes.Length && nodes[list[at]].SearchNode?
      ensures at < |list| ==> nodes[node].evaluate < nodes[list[at]].evaluate
    {
      assert Claimed(nodes[..], list) && Chain(nodes[..], list);
      nm := closed;
      assert NextAt(list, k) == nodes[..][nm].next;
      nn := nodes[nm].next;
      at := k + 1;
      while nn != NULL
        invariant k < at <= |list| && nm == list[at - 1] && nn == NextAt(list, at - 1)
        invariant 0 <= nm < nodes.Length && nodes[nm].SearchNode? && nodes[nm].evaluate <= nodes[node].evaluate
        decreases |list| - at
      {
        assert nn == list[at] && nodes[..][nn].SearchNode?;
        if nodes[nn].evaluate > nodes[node].evaluate {
          break;
        }
        nm := nn;
        assert NextAt(list, at) == nodes[..][nm].next;
        nn := nodes[nm].next;
        at := at + 1;
      }
    }

    method LinkIn(node: int, nm: int, nn: int, ghost at: int)
      requires Listed(node) == true && Node(nodes[..], list, walls, cat, node) == true && node !in list
      requires 0 < at <= |list| && nm == list[at - 1] && nn == NextAt(list, at - 1)
      requires nodes[nm].evaluate <= nodes[node].evaluate && nodes[node].depth <= at
      requires at < |list| ==> nodes[node].evaluate < nodes[list[at]].evaluate
      modifies nodes, this`list
      ensures Listed(NULL) == true && SameButNext(old(nodes[..]), nodes[..])
      ensures list == Inserted(old(list), at, node)
      ensures forall i :: i in list <==> i in old(list) || i == node
    {
      ghost var ns := nodes[..];
      LinkedInListed(ns, list, head, walls, cat, node, at);
      nodes[node] := nodes[node].(next := nn);
      nodes[nm] := nodes[nm].(next := node);
      list := Inserted(list, at, node);
      assert nodes[..] == LinkedIn(ns, node, nm, nn);
      InsertedHas(old(list), at, node);
    }

    /** The board is cleared of claims before each search. */
    method Reset()
      requires nodes.Length == CELLS
      modifies this, nodes
      ensures forall i :: 0 <= i < CELLS ==> nodes[i].Unclaimed?
      ensures list == [] && succeeded == NULL
    {
      head, closed, succeeded, list := NULL, NULL, NULL, [];
      for i := 0 to CELLS
        invariant forall j :: 0 <= j < i ==> nodes[j].Unclaimed?
        invariant list == [] && succeeded == NULL
      {
        nodes[i] := Unclaimed;
      }
    }

    /** The search stands at place `k` of the list, and no listed cell is at the edge unless
        the search has succeeded with it. */
    ghost predicate Searching(k: int, way: int)
      reads this, nodes
    {
      && Listed(NULL) && 0 <= k < |list| && closed == list[k] && 0 <= way <= MAX_MOVEMENT
      && if succeeded == NULL then NoEdge(list) && Covered(list, walls, cat, k, way)
         else Succeeded(k)
    }

    /** The node that succeeded lies at the edge, at most one step deeper than the place reached. */
    ghost predicate Succeeded(k: int)
      reads this, nodes
    {
      && succeeded in list && EdgeDistance(CellOf(succeeded)) == 0
      && 0 <= succeeded < nodes.Length && nodes[succeeded].SearchNode? && nodes[succeeded].depth <= k + 1
    }

    /** Claims the neighbour of the closed node in one direction and inserts it, unless it
        is occupied or claimed. */
    method AddNode(way: int, c: Cell, ghost k: int) returns (node: int)
      requires Listed(NULL) && 0 <= k < |list| && closed == list[k] && 0 <= way < MAX_MOVEMENT
      requires c == Step(CellOf(closed), way) && Unoccupied(walls, cat, c)
      modifies nodes, this`list
      ensures Listed(NULL) == true && k < |list| && list[..k + 1] == old(list[..k + 1])
      ensures Index(c) in list && (node == NULL || (node == Index(c) && 0 <= node < CELLS && nodes[node].SearchNode?))
      ensures forall i :: i in list <==> i in old(list) || (i == node && node != NULL)
      ensures node != NULL ==> nodes[node].evaluate == nodes[node].depth + EdgeDistance(c)
      ensures node != NULL ==> nodes[node].depth <= k + 1
    {
      hide Step, CellOf;
      assert closed in list && Node(nodes[..], list, walls, cat, closed);
      IndexRoundTrip(c);
      ghost var ns := nodes[..];
      node := NewNode(c, way, closed);
      if node == NULL {
        return;
      }
      FilledListed(ns, list, head, walls, cat, node, Init(c, way, closed, ns[closed].depth + 1));
      FilledNode(ns, list, walls, cat, closed, way, c);
      Insert(node, k);
      assert Node(nodes[..], list, walls, cat, node);
    }

    /** Expands the closed node in one direction. */
    method ExpandOne(way: int, ghost k: int)
      requires Searching(k, way) && succeeded == NULL && way < MAX_MOVEMENT
      modifies nodes, this`list, this`succeeded
      ensures Searching(k, way + 1) == true
    {
      var c := Step(CellOf(closed), way);
      ghost var was := list;
      if Unoccupied(walls, cat, c) {
        IndexRoundTrip(c);
        var node := AddNode(way, c, k);
        assert list[k] == list[..k + 1][k];
        if node != NULL && nodes[node].depth == nodes[node].evaluate {
          succeeded := node;
        }
      }
      CoveredMore(was, list, walls, cat, k, way);
    }

    /** Expands the closed node, in all directions or until the edge is found. */
    method Expand(ghost k: int)
      requires Searching(k, 0) && succeeded == NULL
      modifies nodes, this`list, this`succeeded
      ensures Searching(k, MAX_MOVEMENT) == true
    {
      var way := 0;
      while way < MAX_MOVEMENT && succeeded == NULL
        invariant Searching(k, way)
        decreases MAX_MOVEMENT - way
      {
        ExpandOne(way, k);
        way := way + 1;
      }
    }

    /** Goes on to the next node of the list. */
    method Advance(ghost k: int) returns (more: bool)
      requires Searching(k, MAX_MOVEMENT) && succeeded == NULL
      modifies this`closed
      ensures more ==> Searching(k + 1, 0) == true && k + 1 < CELLS
      ensures !more ==> forall w :: !Escape(walls, cat, w)
    {
      hide Escape, Node, NoEdge;
      assert nodes[..][list[k]].next == NextAt(list, k);
      assert forall j | 0 <= j < |list| :: list[j] in list && list[j] >= 0;
      closed := nodes[closed].next;
      more := closed != NULL;
      if more {
        forall i | i in list ensures 0 <= i < CELLS {
          assert Node(nodes[..], list, walls, cat, i);
        }
        AtMostCells(list, CELLS);
      } else {
        assert forall i :: i in list ==> Expanded(list, walls, cat, i, MAX_MOVEMENT);
        NoEscape(list, walls, cat);
      }
    }

    /** Starts the list with the node of the cat. */
    method Begin()
      requires nodes.Length == CELLS && OnBoard(cat) && succeeded == NULL && list == []
      requires forall i :: 0 <= i < CELLS ==> nodes[i].Unclaimed?
      modifies this`head, this`closed, this`list, nodes
      ensures Listed(NULL) == true && list == [head] && closed == head == Index(cat)
      ensures nodes[head] == Init(cat, -1, NULL, 0)
    {
      IndexRoundTrip(cat);
      head := NewNode(cat, -1, NULL);
      closed := head;
      list := [head];
      forall i | 0 <= i < CELLS && nodes[i].SearchNode? ensures i == head {
      }
      assert NextAt(list, 0) == NULL;
      assert Node(nodes[..], list, walls, cat, head);
    }

    /** The depth of the node that succeeded is the length of an escape. */
    lemma SuccessEscapes()
      requires Listed(NULL) && succeeded in list && EdgeDistance(CellOf(succeeded)) == 0
      ensures 0 <= succeeded < CELLS && nodes[succeeded].SearchNode?
      ensures EdgeDistance(cat) <= nodes[succeeded].depth < CELLS
      ensures exists w :: Escape(walls, cat, w) && |w| == nodes[succeeded].depth + 1
    {
      FathersWalk(nodes[..], list, walls, cat, succeeded);
      WalkLongEnough(walls, cat, WalkTo(nodes[..], list, walls, cat, succeeded));
      assert Escape(walls, cat, WalkTo(nodes[..], list, walls, cat, succeeded));
      forall i | i in list ensures 0 <= i < CELLS {
        assert Node(nodes[..], list, walls, cat, i);
      }
      AtMostCells(list, CELLS);
      var k :| 0 <= k < |list| && list[k] == succeeded;
      assert nodes[..][list[k]].depth <= k;
    }

    /** The distance is the length of some escape, and MAX_DISTANCE exactly when there is
        none. The list is left linked, sorted and without repetition. */
    method StartSearch() returns (distance: int)
      requires nodes.Length == CELLS && OnBoard(cat) && succeeded == NULL && list == []
      requires forall i :: 0 <= i < CELLS ==> nodes[i].Unclaimed?
      modifies this, nodes
      ensures Listed(NULL) == true
      ensures distance == MAX_DISTANCE <==> forall w :: !Escape(walls, cat, w)
      ensures distance != MAX_DISTANCE ==> EdgeDistance(cat) <= distance < CELLS
      ensures distance != MAX_DISTANCE ==> exists w :: Escape(walls, cat, w) && |w| == distance + 1
      ensures EdgeNext(walls, cat) ==> distance <= 1
      ensures EdgeDistance(cat) == 0 ==> distance == 0
    {
      hide OnBoard;
      Begin();
      ghost var k := 0;
      if nodes[head].evaluate == 0 {
        assert Escape(walls, cat, [cat]);
        return nodes[head].depth;
      }
      IndexRoundTrip(cat);
      while true
        invariant Searching(k, 0) && succeeded == NULL && k < CELLS
        invariant k > 0 ==> !EdgeNext(walls, cat)
        decreases CELLS - k
      {
        Expand(k);
        if succeeded != NULL {
          break;
        }
        if k == 0 {
          NoEdgeNext(list, walls, cat);
        }
        var more := Advance(k);
        if !more {
          return MAX_DISTANCE;
        }
        k := k + 1;
      }
      SuccessEscapes();
      return nodes[succeeded].depth;
    }
  }
}
