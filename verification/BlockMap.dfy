/** The block map of the leak detector: an in-place red-black tree with parent pointers
    and a shared nil node, which maps allocation request numbers to call stacks. It keeps
    the node with the largest key at hand, and draws nodes and stacks from free lists.

    The invariant of the tree is local. The ghost field `order` lists the nodes in key
    order; every node knows its own place in that listing and the interval of places its
    subtree covers, and `Link` relates each node to its neighbours only. A rotation or a
    recolouring then needs new facts about a handful of nodes, whatever the size of the
    tree. The methods of the two fix-up loops come in mirror-image pairs, as the branches
    of the program do. */
module BlockMaps {
  import opened Basics
  import opened CallStacks
  import opened Listings
  import opened MapStorage
  import opened RedBlackTrees

  class BlockMap {
    const nil: Node
    const store: MapChunk
    var storeTail: MapChunk
    var freeNodes: Node?
    var freeStacks: StackLink?
    var root: Node
    var max: Node

    /** The tree nodes in order. */
    ghost var order: seq<Node>
    /** Their keys and stacks, in the same order, and the map they make up. */
    ghost var keys: seq<nat>
    ghost var stacks: seq<StackLink>
    ghost var contents: map<nat, StackLink>
    /** The chunks and the two free lists. */
    ghost var chunks: seq<MapChunk>
    ghost var allNodes: set<Node>
    ghost var allStacks: set<StackLink>
    ghost var freeNodeList: seq<Node>
    ghost var freeStackList: seq<StackLink>

    constructor ()
      ensures Valid() == true && contents == map[]
    {
      hide Sound;
      var sentinel := MakeSentinel();
      var chunk := MakeChunk();
      nil, root, max := sentinel, sentinel, sentinel;
      store, storeTail := chunk, chunk;
      freeNodes, freeStacks := chunk.nodes[0], chunk.stacks[0];
      order, keys, stacks, contents := [], [], [], map[];
      chunks, freeNodeList, freeStackList := [chunk], chunk.nodes, chunk.stacks;
      allNodes, allStacks := Elems(chunk.nodes), Elems(chunk.stacks);
      new;
      OneMoreChunk([], chunk);
      assert [] + [chunk] == [chunk];
      EmptySound();
      AllIsFree(chunk);
    }

    lemma AllIsFree(chunk: MapChunk)
      requires AllFree(chunk) == true && chunks == [chunk] && store == storeTail == chunk
      requires freeNodes == chunk.nodes[0] && freeStacks == chunk.stacks[0] && order == [] && stacks == []
      requires freeNodeList == chunk.nodes && freeStackList == chunk.stacks && nil !in chunk.nodes
      requires allNodes == NodesIn(chunks) == Elems(chunk.nodes) && allStacks == StacksIn(chunks) == Elems(chunk.stacks)
      ensures FreeLists(Elems(order), Elems(stacks)) == true && StacksOk() == true && ChunkList() == true
    {
      assert AllFree(chunk);
    }

    lemma EmptySound()
      requires order == [] && keys == [] && stacks == [] && contents == map[] && root == max == nil
      requires nil.left == nil && nil.right == nil && Nil()
      ensures Sound() == true
    {
    }

    // ---------- the shape of the tree ----------

    ghost predicate In(n: Node)
      reads this`order, n`pos
    {
      n != nil && 0 <= n.pos < |order| && order[n.pos] == n
    }

    ghost predicate DownLeft(n: Node)
      reads this`order, n`lo, n`pos, n`left, n.left`pos, n.left`parent, n.left`lo, n.left`hi
    {
      && n.lo <= n.pos
      && if n.left == nil then n.lo == n.pos
         else In(n.left) && n.left.parent == n && n.left.lo == n.lo && n.left.hi == n.pos
    }

    ghost predicate DownRight(n: Node)
      reads this`order, n`hi, n`pos, n`right, n.right`pos, n.right`parent, n.right`lo, n.right`hi
    {
      && n.pos < n.hi
      && if n.right == nil then n.pos + 1 == n.hi
         else In(n.right) && n.right.parent == n && n.right.lo == n.pos + 1 && n.right.hi == n.hi
    }

    ghost predicate Up(n: Node)
      reads this`order, this`root, n`parent, n`lo, n`hi, {n.parent}`pos, {n.parent}`left, {n.parent}`right
    {
      if n == root then n.parent == nil && n.lo == 0 && n.hi == |order|
      else n.parent != null && In(n.parent) && (n.parent.left == n || n.parent.right == n)
    }

    ghost predicate Link(n: Node)
      reads this`order, this`root, n`lo, n`pos, n`hi, n`left, n`right, n`parent
      reads n.left`pos, n.left`parent, n.left`lo, n.left`hi
      reads n.right`pos, n.right`parent, n.right`lo, n.right`hi
      reads {n.parent}`pos, {n.parent}`left, {n.parent}`right
    {
      DownLeft(n) && DownRight(n) && Up(n) && 0 <= n.lo && n.hi <= |order|
    }

    /** The nodes of the tree and everything their links lead to. */
    ghost function Around(): set<Node?>
      reads this`order, order`left, order`right, order`parent
    {
      (set n | n in order) + (set n | n in order :: n.left) + (set n | n in order :: n.right)
      + (set n | n in order :: n.parent)
    }

    ghost predicate Shape()
      reads this`order, this`root, nil`left, nil`right, order`left, order`right, order`parent
      reads Around()`lo, Around()`pos, Around()`hi, Around()`left, Around()`right, Around()`parent
    {
      && nil !in order && nil.left == nil && nil.right == nil
      && (root == nil <==> order == [])
      && (root != nil ==> root in order)
      && (forall i | 0 <= i < |order| :: order[i].pos == i)
      && forall n {:trigger Link(n)} | n in order :: Link(n)
    }

    // ---------- colours ----------

    ghost predicate Nil()
      reads nil`color, nil`bh, nil`key
    {
      nil.color == Black && nil.bh == 0 && nil.key == 0
    }

    /** No red node has a red child, except that the child may be `exempt`. */
    ghost predicate RedEdge(n: Node, exempt: Node)
      reads n`color, n`left, n`right, n.left`color, n.right`color
    {
      n.color == Red ==> (n.left == exempt || n.left.color == Black) && (n.right == exempt || n.right.color == Black)
    }

    /** Both subtrees have the same black height. */
    ghost predicate Level(n: Node)
      reads n`color, n`left, n`right, n`bh, n.left`bh, n.right`bh
    {
      n.left.bh >= 0 && n.left.bh == n.right.bh && n.bh == n.left.bh + (if n.color == Black then 1 else 0)
    }

    ghost predicate Levels()
      reads this`order, order`left, order`right, Around()`bh, Around()`color, order`parent
      reads Around()`left, Around()`right
    {
      forall n {:trigger Level(n)} | n in order :: Level(n)
    }

    ghost predicate RedEdges(exempt: Node)
      reads this`order, order`left, order`right, order`parent, Around()`color, Around()`left, Around()`right
    {
      forall n {:trigger RedEdge(n, exempt)} | n in order :: RedEdge(n, exempt)
    }

    // ---------- rotations ----------

    /** Hangs `child` where `node` hangs now. */
    method Transplant(node: Node, child: Node)
      requires node.parent != null && (node.parent == nil || node.parent.left == node || node.parent.right == node)
      modifies this`root, child`parent
      modifies (if node.parent == nil then {} else {node.parent})`left
      modifies (if node.parent == nil then {} else {node.parent})`right
      ensures child.parent == old(node.parent)
      ensures old(node.parent) == nil ==> root == child && nil.left == old(nil.left) && nil.right == old(nil.right)
      ensures old(node.parent) != nil ==> (
        && root == old(root)
        && old(node.parent).left == (if old(node.parent.left) == node then child else old(node.parent.left))
        && old(node.parent).right == (if old(node.parent.left) == node then old(node.parent.right) else child))
    {
      var up := node.parent;
      child.parent := node.parent;
      if up == nil {
        root := child;
      } else {
        if node == up.left {
          up.left := child;
        } else {
          up.right := child;
        }
      }
    }

    twostate predicate RotatedLeft(node: Node)
      reads this, nil, order
      requires old(In(node))
    {
      var child := old(node.right);
      var up := old(node.parent);
      && order == old(order)
      && root == (if old(root) == node then child else old(root))
      && (forall n {:trigger n.left} | n in order ::
        n.left == (if n == child then node else if n == up && old(n.left) == node then child else old(n.left)))
      && (forall n {:trigger n.right} | n in order ::
        n.right == (if n == node then old(child.left)
          else if n == up && old(n.right) == node then child else old(n.right)))
      && (forall n {:trigger n.parent} | n in order ::
        n.parent == (if n == node then child else if n == child then up
          else if n == old(child.left) then node else old(n.parent)))
      && (forall n {:trigger n.lo} | n in order :: n.lo == if n == child then old(node.lo) else old(n.lo))
      && (forall n {:trigger n.hi} | n in order :: n.hi == if n == node then old(child.pos) else old(n.hi))
      && (forall n {:trigger n.pos} | n in order :: n.pos == old(n.pos))
    }

    twostate lemma RotLeftDownLeft(node: Node)
      requires old(Shape()) && old(In(node)) && old(node.right) != nil
      requires RotatedLeft(node)
      ensures forall n | n in order :: DownLeft(n) && 0 <= n.lo && n.hi <= |order|
    {
      assert old(Link(node));
      assert old(Link(node.right));
      forall n | n in order ensures DownLeft(n) && 0 <= n.lo && n.hi <= |order| {
        assert old(Link(n));
      }
    }

    twostate lemma RotLeftDownRight(node: Node)
      requires old(Shape()) && old(In(node)) && old(node.right) != nil
      requires RotatedLeft(node)
      ensures forall n | n in order :: DownRight(n)
    {
      assert old(Link(node));
      assert old(Link(node.right));
      forall n | n in order ensures DownRight(n) {
        assert old(Link(n));
      }
    }

    twostate lemma RotLeftUp(node: Node)
      requires old(Shape()) && old(In(node)) && old(node.right) != nil
      requires RotatedLeft(node)
      ensures forall n | n in order :: Up(n)
    {
      assert old(Link(node));
      assert old(Link(node.right));
      forall n | n in order ensures Up(n) {
        assert old(Link(n));
      }
    }

    twostate lemma RotatedLeftShape(node: Node)
      requires old(Shape()) && old(In(node)) && old(node.right) != nil
      requires RotatedLeft(node) && nil.left == old(nil.left) && nil.right == old(nil.right)
      ensures Shape()
    {
      RotLeftDownLeft(node);
      RotLeftDownRight(node);
      RotLeftUp(node);
      assert old(Link(node));
    }

    lemma RotationPartsLeft(node: Node)
      requires Shape() && In(node) && node.right != nil
      ensures Link(node) && Link(node.right)
      ensures node.right in order && node in order
      ensures node.right != node && node.parent != node && node.parent != node.right && node.right.left != node
        && node.right.left != node.right
      ensures node.right.left != nil ==> node.right.left in order && node.parent != node.right.left
      ensures node.parent != null
      ensures node != root <==> node.parent != nil
      ensures node != root ==> node.parent in order && node.parent.left != node.parent.right
    {
      assert Link(node);
      var child := node.right;
      assert Link(child);
      if child.left != nil { assert Link(child.left); }
      if node != root { assert Link(node.parent); }
    }

    method RotateLeft(node: Node)
      requires Shape() && In(node) && node.right != nil
      modifies this`root, order`left, order`right, order`parent, order`lo, order`hi
      ensures RotatedLeft(node)
    {
      hide In, DownLeft;
      RotationPartsLeft(node);
      var child := node.right;
      node.right := child.left;
      if child.left != nil {
        child.left.parent := node;
      }
      Transplant(node, child);
      child.left := node;
      node.parent := child;
      child.lo := node.lo;
      node.hi := child.pos;
    }

    twostate predicate RotatedRight(node: Node)
      reads this, nil, order
      requires old(In(node))
    {
      var child := old(node.left);
      var up := old(node.parent);
      && order == old(order)
      && root == (if old(root) == node then child else old(root))
      && (forall n {:trigger n.right} | n in order ::
        n.right == (if n == child then node else if n == up && old(n.right) == node then child else old(n.right)))
      && (forall n {:trigger n.left} | n in order ::
        n.left == (if n == node then old(child.right)
          else if n == up && old(n.left) == node then child else old(n.left)))
      && (forall n {:trigger n.parent} | n in order ::
        n.parent == (if n == node then child else if n == child then up
          else if n == old(child.right) then node else old(n.parent)))
      && (forall n {:trigger n.hi} | n in order :: n.hi == if n == child then old(node.hi) else old(n.hi))
      && (forall n {:trigger n.lo} | n in order :: n.lo == if n == node then old(child.pos) + 1 else old(n.lo))
      && (forall n {:trigger n.pos} | n in order :: n.pos == old(n.pos))
    }

    twostate lemma RotRightDownRight(node: Node)
      requires old(Shape()) && old(In(node)) && old(node.left) != nil
      requires RotatedRight(node)
      ensures forall n | n in order :: DownRight(n) && 0 <= n.lo && n.hi <= |order|
    {
      assert old(Link(node));
      assert old(Link(node.left));
      forall n | n in order ensures DownRight(n) && 0 <= n.lo && n.hi <= |order| {
        assert old(Link(n));
      }
    }

    twostate lemma RotRightDownLeft(node: Node)
      requires old(Shape()) && old(In(node)) && old(node.left) != nil
      requires RotatedRight(node)
      ensures forall n | n in order :: DownLeft(n)
    {
      assert old(Link(node));
      assert old(Link(node.left));
      forall n | n in order ensures DownLeft(n) {
        assert old(Link(n));
      }
    }

    twostate lemma RotRightUp(node: Node)
      requires old(Shape()) && old(In(node)) && old(node.left) != nil
      requires RotatedRight(node)
      ensures forall n | n in order :: Up(n)
    {
      assert old(Link(node));
      assert old(Link(node.left));
      forall n | n in order ensures Up(n) {
        assert old(Link(n));
      }
    }

    twostate lemma RotatedRightShape(node: Node)
      requires old(Shape()) && old(In(node)) && old(node.left) != nil
      requires RotatedRight(node) && nil.right == old(nil.right) && nil.left == old(nil.left)
      ensures Shape()
    {
      RotRightDownRight(node);
      RotRightDownLeft(node);
      RotRightUp(node);
      assert old(Link(node));
    }

    lemma RotationPartsRight(node: Node)
      requires Shape() && In(node) && node.left != nil
      ensures Link(node) && Link(node.left)
      ensures node.left in order && node in order
      ensures node.left != node && node.parent != node && node.parent != node.left && node.left.right != node
        && node.left.right != node.left
      ensures node.left.right != nil ==> node.left.right in order && node.parent != node.left.right
      ensures node.parent != null
      ensures node != root <==> node.parent != nil
      ensures node != root ==> node.parent in order && node.parent.right != node.parent.left
    {
      assert Link(node);
      var child := node.left;
      assert Link(child);
      if child.right != nil { assert Link(child.right); }
      if node != root { assert Link(node.parent); }
    }

    method RotateRight(node: Node)
      requires Shape() && In(node) && node.left != nil
      modifies this`root, order`right, order`left, order`parent, order`lo, order`hi
      ensures RotatedRight(node)
    {
      hide In, Around, DownRight;
      RotationPartsRight(node);
      var child := node.left;
      node.left := child.right;
      if child.right != nil {
        child.right.parent := node;
      }
      Transplant(node, child);
      child.right := node;
      node.parent := child;
      child.hi := node.hi;
      node.lo := child.pos + 1;
    }

    // ---------- rebalancing after an insertion ----------

    /** The only flaw is that `cur` and its parent may both be red. */
    ghost predicate Inserting(cur: Node)
      reads this`order, this`root, nil`left, nil`right, nil`color, nil`bh, nil`key
      reads order`left, order`right, order`parent, Around()`lo, Around()`pos, Around()`hi
      reads Around()`left, Around()`right, Around()`parent, Around()`color, Around()`bh
      reads cur`color
    {
      && Shape() && Nil() && Levels() && RedEdges(cur)
      && cur in order && cur.color == Red
      && (root.color == Red ==> root == cur)
    }

    lemma InsertingParts(cur: Node)
      requires Inserting(cur) && cur.parent != null && cur.parent.color == Red
      ensures cur.parent in order && cur.parent != root && cur.parent.parent != null && cur.parent.parent in order
      ensures cur.parent.parent.color == Black && cur != cur.parent && cur.parent != cur.parent.parent
      ensures cur != cur.parent.parent
      ensures Link(cur) && Link(cur.parent) && Link(cur.parent.parent)
      ensures Level(cur) && Level(cur.parent) && Level(cur.parent.parent)
      ensures RedEdge(cur, cur) && RedEdge(cur.parent, cur) && RedEdge(cur.parent.parent, cur)
      ensures cur.parent.parent.hi - cur.parent.parent.lo > cur.hi - cur.lo
      ensures |order| >= cur.hi - cur.lo
    {
      assert Link(cur);
      assert Link(cur.parent);
      assert Link(cur.parent.parent);
      assert RedEdge(cur.parent.parent, cur);
      assert Level(cur) && Level(cur.parent) && Level(cur.parent.parent);
      assert RedEdge(cur, cur) && RedEdge(cur.parent, cur);
    }

    /** Only colours and black heights changed. */
    twostate predicate SameLinks()
      reads this, nil, order
    {
      && order == old(order) && root == old(root) && nil.left == old(nil.left) && nil.right == old(nil.right)
      && (forall n {:trigger n.left} | n in order :: n.left == old(n.left))
      && (forall n {:trigger n.right} | n in order :: n.right == old(n.right))
      && (forall n {:trigger n.parent} | n in order :: n.parent == old(n.parent))
      && (forall n {:trigger n.lo} | n in order :: n.lo == old(n.lo))
      && (forall n {:trigger n.pos} | n in order :: n.pos == old(n.pos))
      && (forall n {:trigger n.hi} | n in order :: n.hi == old(n.hi))
    }

    twostate lemma SameLinksKeepShape()
      requires old(Shape()) && SameLinks()
      ensures Shape()
    {
      forall n | n in order ensures Link(n) {
        assert old(Link(n));
      }
    }

    ghost function Uncle(cur: Node): Node
      requires cur.parent != null && cur.parent.parent != null
      reads cur, cur.parent, if cur.parent != null then {cur.parent.parent} else {}
    {
      if cur.parent == cur.parent.parent.left then cur.parent.parent.right else cur.parent.parent.left
    }

    /** The grandparent turned red, parent and uncle black. */
    twostate predicate RecoloredUp(cur: Node)
      requires old(cur.parent != null && cur.parent.parent != null)
      reads this, order
    {
      var parent := old(cur.parent);
      var grand := old(cur.parent.parent);
      var uncle := old(Uncle(cur));
      && order == old(order)
      && (forall n {:trigger n.color} | n in order ::
        n.color == if n == grand then Red else if n == parent || n == uncle then Black else old(n.color))
      && (forall n {:trigger n.bh} | n in order ::
        n.bh == if n == parent || n == uncle then old(n.bh) + 1 else old(n.bh))
    }

    /** Blackens `a` and reddens `b`: one black node more on the paths through `a`,
        one less on those through `b`. */
    method Exchange(a: Node, b: Node)
      requires a in order && b in order && a != b
      modifies order`color, order`bh
      ensures a.color == Black && b.color == Red && a.bh == old(a.bh) + 1 && b.bh == old(b.bh) - 1
      ensures forall n | n in order && n != a && n != b :: n.color == old(n.color) && n.bh == old(n.bh)
    {
      a.color := Black;
      b.color := Red;
      a.bh := a.bh + 1;
      b.bh := b.bh - 1;
    }

    twostate lemma RecoloredUpLevels(cur: Node)
      requires old(Inserting(cur) && cur.parent != null && cur.parent.color == Red && cur.parent.parent != null)
      requires old(Uncle(cur).color == Red)
      requires SameLinks() && RecoloredUp(cur) && Nil()
      ensures Levels()
    {
      assert old(Link(cur) && Link(cur.parent) && RedEdge(cur.parent.parent, cur));
      assert old(Link(cur.parent.parent));
      forall n | n in order ensures Level(n) {
        assert old(Link(n));
        assert old(Level(n));
      }
    }

    twostate lemma RecoloredUpEdges(cur: Node)
      requires old(Inserting(cur) && cur.parent != null && cur.parent.color == Red && cur.parent.parent != null)
      requires old(Uncle(cur).color == Red)
      requires SameLinks() && RecoloredUp(cur) && Nil()
      ensures RedEdges(old(cur.parent.parent))
    {
      assert old(Link(cur) && Link(cur.parent) && RedEdge(cur.parent.parent, cur));
      assert old(Link(cur.parent.parent));
      forall n | n in order ensures RedEdge(n, old(cur.parent.parent)) {
        assert old(Link(n));
        assert old(RedEdge(n, cur));
      }
    }

    /** Parent and uncle are red: blacken both, redden the grandparent. */
    method Recolor(cur: Node, uncle: Node)
      requires Inserting(cur) && cur.parent != null && cur.parent.color == Red && cur.parent.parent != null
      requires uncle == Uncle(cur) && uncle.color == Red
      modifies order`color, order`bh
      ensures RecoloredUp(cur) && SameLinks() && Nil()
    {
      InsertingParts(cur);
      assert uncle in order && uncle != cur.parent && uncle != cur.parent.parent;
      cur.parent.parent.color := Red;
      cur.parent.color := Black;
      uncle.color := Black;
      cur.parent.bh := cur.parent.bh + 1;
      uncle.bh := uncle.bh + 1;
    }

    /** `cur` is the right child of a red left child: turn the pair round. */
    twostate lemma InnerLeftRotated(parent: Node)
      requires old(parent in order && Inserting(parent.right) && parent.color == Red)
      requires RotatedLeft(parent) && Shape() && Nil()
      requires forall n | n in order :: n.color == old(n.color) && n.bh == old(n.bh)
      ensures Inserting(parent)
    {
      assert old(Link(parent) && Level(parent) && RedEdge(parent, parent.right));
      assert old(Link(parent.right) && Level(parent.right) && RedEdge(parent.right, parent.right));
      forall n | n in order ensures Level(n) {
        assert old(Link(n));
        assert old(Level(n));
      }
      forall n | n in order ensures RedEdge(n, parent) {
        assert old(Link(n));
        assert old(RedEdge(n, parent.right));
      }
    }

    /** The grandparent went down to the right below the parent, and the two exchanged
        colours and black heights. */
    twostate predicate OuterRotatedRight(cur: Node)
      requires old(cur.parent != null && cur.parent.parent != null && cur.parent.parent in order)
      reads this, nil, order
    {
      var parent := old(cur.parent);
      var grand := old(cur.parent.parent);
      && old(In(grand)) && RotatedRight(grand)
      && (forall n {:trigger n.color} | n in order ::
        n.color == if n == grand then Red else if n == parent then Black else old(n.color))
      && (forall n {:trigger n.bh} | n in order ::
        n.bh == if n == parent then old(n.bh) + 1 else if n == grand then old(n.bh) - 1 else old(n.bh))
    }

    twostate lemma OuterRightLevels(cur: Node)
      requires old(Inserting(cur) && cur.parent != null && cur.parent.color == Red && cur.parent.parent != null)
      requires old(cur.parent.parent in order && cur.parent.parent.left == cur.parent && cur == cur.parent.left)
      requires old(cur.parent.parent.right.color == Black)
      requires OuterRotatedRight(cur) && Shape() && Nil()
      ensures Levels()
    {
      assert old(Link(cur) && Link(cur.parent) && RedEdge(cur.parent.parent, cur));
      assert old(Link(cur.parent.parent));
      assert old(Level(cur.parent) && Level(cur.parent.parent));
      forall n | n in order ensures Level(n) {
        assert old(Link(n));
        assert old(Level(n));
      }
    }

    twostate lemma OuterRightEdges(cur: Node)
      requires old(Inserting(cur) && cur.parent != null && cur.parent.color == Red && cur.parent.parent != null)
      requires old(cur.parent.parent in order && cur.parent.parent.left == cur.parent && cur == cur.parent.left)
      requires old(cur.parent.parent.right.color == Black)
      requires OuterRotatedRight(cur) && Shape() && Nil()
      ensures RedEdges(nil) && root.color == Black
    {
      assert old(Link(cur) && Link(cur.parent) && RedEdge(cur.parent.parent, cur) && RedEdge(cur.parent, cur));
      assert old(Link(cur.parent.parent));
      forall n | n in order ensures RedEdge(n, nil) {
        assert old(Link(n));
        assert old(RedEdge(n, cur));
      }
    }

    /** Turns a right child that is red below a red parent into the upper one of the two. */
    method LeanLeft(parent: Node)
      requires parent in order && Inserting(parent.right) && parent.color == Red && parent.right.parent == parent
      modifies this`root, order`left, order`right, order`parent, order`lo, order`hi
      ensures Inserting(parent) && RotatedLeft(parent) && parent.parent == old(parent.right)
    {
      assert Link(parent);
      RotateLeft(parent);
      RotatedLeftShape(parent);
      InnerLeftRotated(parent);
    }

    /** A left child of a red left child, with a black uncle: the grandparent goes down
        on the right. */
    method LowerRight(cur: Node)
      requires Inserting(cur) && cur.parent != null && cur.parent.color == Red && cur.parent.parent != null
      requires cur.parent.parent.left == cur.parent && cur == cur.parent.left && cur.parent.parent.right.color == Black
      requires cur.parent.parent in order
      modifies this`root, order`left, order`right, order`parent, order`lo, order`hi, order`color, order`bh
      ensures OuterRotatedRight(cur) && Shape() && Nil()
    {
      InsertingParts(cur);
      var grand := cur.parent.parent;
      Exchange(cur.parent, grand);
      label Colored:
      RotateRight(grand);
      RotatedRightShape@Colored(grand);
    }

    method LiftLeft(cur: Node)
      requires Inserting(cur) && cur.parent != null && cur.parent.color == Red && cur.parent.parent != null
      requires cur.parent.parent.left == cur.parent && cur == cur.parent.left && cur.parent.parent.right.color == Black
      modifies this`root, order`left, order`right, order`parent, order`lo, order`hi, order`color, order`bh
      ensures Shape() && Nil() && Levels() && RedEdges(nil) && root.color == Black
      ensures cur.parent == old(cur.parent) && cur.parent.color == Black && cur.color == Red
    {
      InsertingParts(cur);
      LowerRight(cur);
      OuterRightLevels(cur);
      OuterRightEdges(cur);
    }

    /** `cur` is the left child of a red right child: turn the pair round. */
    twostate lemma InnerRightRotated(parent: Node)
      requires old(parent in order && Inserting(parent.left) && parent.color == Red)
      requires RotatedRight(parent) && Shape() && Nil()
      requires forall n | n in order :: n.color == old(n.color) && n.bh == old(n.bh)
      ensures Inserting(parent)
    {
      assert old(Link(parent) && Level(parent) && RedEdge(parent, parent.left));
      assert old(Link(parent.left) && Level(parent.left) && RedEdge(parent.left, parent.left));
      forall n | n in order ensures Level(n) {
        assert old(Link(n));
        assert old(Level(n));
      }
      forall n | n in order ensures RedEdge(n, parent) {
        assert old(Link(n));
        assert old(RedEdge(n, parent.left));
      }
    }

    /** The grandparent went down to the left below the parent, and the two exchanged
        colours and black heights. */
    twostate predicate OuterRotatedLeft(cur: Node)
      requires old(cur.parent != null && cur.parent.parent != null && cur.parent.parent in order)
      reads this, nil, order
    {
      var parent := old(cur.parent);
      var grand := old(cur.parent.parent);
      && old(In(grand)) && RotatedLeft(grand)
      && (forall n {:trigger n.color} | n in order ::
        n.color == if n == grand then Red else if n == parent then Black else old(n.color))
      && (forall n {:trigger n.bh} | n in order ::
        n.bh == if n == parent then old(n.bh) + 1 else if n == grand then old(n.bh) - 1 else old(n.bh))
    }

    twostate lemma OuterLeftLevels(cur: Node)
      requires old(Inserting(cur) && cur.parent != null && cur.parent.color == Red && cur.parent.parent != null)
      requires old(cur.parent.parent in order && cur.parent.parent.right == cur.parent && cur == cur.parent.right)
      requires old(cur.parent.parent.left.color == Black)
      requires OuterRotatedLeft(cur) && Shape() && Nil()
      ensures Levels()
    {
      assert old(Link(cur) && Link(cur.parent) && RedEdge(cur.parent.parent, cur));
      assert old(Link(cur.parent.parent));
      assert old(Level(cur.parent) && Level(cur.parent.parent));
      forall n | n in order ensures Level(n) {
        assert old(Link(n));
        assert old(Level(n));
      }
    }

    twostate lemma OuterLeftEdges(cur: Node)
      requires old(Inserting(cur) && cur.parent != null && cur.parent.color == Red && cur.parent.parent != null)
      requires old(cur.parent.parent in order && cur.parent.parent.right == cur.parent && cur == cur.parent.right)
      requires old(cur.parent.parent.left.color == Black)
      requires OuterRotatedLeft(cur) && Shape() && Nil()
      ensures RedEdges(nil) && root.color == Black
    {
      assert old(Link(cur) && Link(cur.parent) && RedEdge(cur.parent.parent, cur) && RedEdge(cur.parent, cur));
      assert old(Link(cur.parent.parent));
      forall n | n in order ensures RedEdge(n, nil) {
        assert old(Link(n));
        assert old(RedEdge(n, cur));
      }
    }

    /** Turns a left child that is red below a red parent into the upper one of the two. */
    method LeanRight(parent: Node)
      requires parent in order && Inserting(parent.left) && parent.color == Red && parent.left.parent == parent
      modifies this`root, order`right, order`left, order`parent, order`lo, order`hi
      ensures Inserting(parent) && RotatedRight(parent) && parent.parent == old(parent.left)
    {
      assert Link(parent);
      RotateRight(parent);
      RotatedRightShape(parent);
      InnerRightRotated(parent);
    }

    /** A right child of a red right child, with a black uncle: the grandparent goes down
        on the left. */
    method LowerLeft(cur: Node)
      requires Inserting(cur) && cur.parent != null && cur.parent.color == Red && cur.parent.parent != null
      requires cur.parent.parent.right == cur.parent && cur == cur.parent.right && cur.parent.parent.left.color == Black
      requires cur.parent.parent in order
      modifies this`root, order`right, order`left, order`parent, order`lo, order`hi, order`color, order`bh
      ensures OuterRotatedLeft(cur) && Shape() && Nil()
    {
      InsertingParts(cur);
      var grand := cur.parent.parent;
      Exchange(cur.parent, grand);
      label Colored:
      RotateLeft(grand);
      RotatedLeftShape@Colored(grand);
    }

    method LiftRight(cur: Node)
      requires Inserting(cur) && cur.parent != null && cur.parent.color == Red && cur.parent.parent != null
      requires cur.parent.parent.right == cur.parent && cur == cur.parent.right && cur.parent.parent.left.color == Black
      modifies this`root, order`right, order`left, order`parent, order`lo, order`hi, order`color, order`bh
      ensures Shape() && Nil() && Levels() && RedEdges(nil) && root.color == Black
      ensures cur.parent == old(cur.parent) && cur.parent.color == Black && cur.color == Red
    {
      InsertingParts(cur);
      LowerLeft(cur);
      OuterLeftLevels(cur);
      OuterLeftEdges(cur);
    }

    lemma SettledIsInserting(cur: Node)
      requires Shape() && Nil() && Levels() && RedEdges(nil) && root.color == Black && cur in order && cur.color == Red
      ensures Inserting(cur)
    {
      forall n | n in order ensures RedEdge(n, cur) {
        assert RedEdge(n, nil);
      }
    }

    method RecolorUp(cur: Node, uncle: Node)
      requires Inserting(cur) && cur.parent != null && cur.parent.color == Red && cur.parent.parent != null
      requires uncle == Uncle(cur) && uncle.color == Red
      modifies order`color, order`bh
      ensures Inserting(cur.parent.parent)
    {
      InsertingParts(cur);
      Recolor(cur, uncle);
      SameLinksKeepShape();
      RecoloredUpLevels(cur);
      RecoloredUpEdges(cur);
    }

    method BlackenRoot(cur: Node)
      requires Inserting(cur) && cur.parent != null && cur.parent.color == Black
      modifies order`color, order`bh
      ensures Shape() && Nil() && Levels() && RedEdges(nil) && root.color == Black
    {
      assert Link(root);
      label Before:
      if root.color == Red {
        root.bh := root.bh + 1;
      }
      root.color := Black;
      forall n | n in order ensures Level(n) && RedEdge(n, nil) {
        assert old(Link(n) && Level(n) && RedEdge(n, cur));
      }
    }

    /** One round of the loop when the parent is a left child. */
    method InsertStepLeft(cur0: Node) returns (cur: Node)
      requires Inserting(cur0) && cur0.parent != null && cur0.parent.color == Red && cur0.parent.parent != null
      requires cur0.parent == cur0.parent.parent.left
      modifies this`root, order`left, order`right, order`parent, order`lo, order`hi, order`color, order`bh
      ensures Inserting(cur) && cur.parent != null
      ensures cur.parent.color == Red ==> cur.hi - cur.lo > old(cur0.hi - cur0.lo)
    {
      cur := cur0;
      InsertingParts(cur);
      var uncle := cur.parent.parent.right;
      if uncle.color == Red {
        RecolorUp(cur, uncle);
        cur := cur.parent.parent;
        assert Link(cur);
      } else {
        if cur == cur.parent.right {
          cur := cur.parent;
          LeanLeft(cur);
        }
        LiftLeft(cur);
        SettledIsInserting(cur);
      }
    }

    /** One round of the loop when the parent is a right child. */
    method InsertStepRight(cur0: Node) returns (cur: Node)
      requires Inserting(cur0) && cur0.parent != null && cur0.parent.color == Red && cur0.parent.parent != null
      requires cur0.parent == cur0.parent.parent.right
      modifies this`root, order`right, order`left, order`parent, order`lo, order`hi, order`color, order`bh
      ensures Inserting(cur) && cur.parent != null
      ensures cur.parent.color == Red ==> cur.hi - cur.lo > old(cur0.hi - cur0.lo)
    {
      cur := cur0;
      InsertingParts(cur);
      var uncle := cur.parent.parent.left;
      if uncle.color == Red {
        RecolorUp(cur, uncle);
        cur := cur.parent.parent;
        assert Link(cur);
      } else {
        if cur == cur.parent.left {
          cur := cur.parent;
          LeanRight(cur);
        }
        LiftRight(cur);
        SettledIsInserting(cur);
      }
    }

    /** Rebalances the tree after a red leaf has been hung into it. */
    method InsertFixup(node: Node)
      requires Inserting(node)
      modifies this`root, order`left, order`right, order`parent, order`lo, order`hi, order`color, order`bh
      ensures Shape() && Nil() && Levels() && RedEdges(nil) && root.color == Black
    {
      var cur := node;
      assert Link(cur);
      while cur.parent.color == Red
        invariant Inserting(cur) && cur.parent != null
        decreases if cur.parent != null && cur.parent.color == Red then |order| - (cur.hi - cur.lo) else -1
      {
        InsertingParts(cur);
        if cur.parent == cur.parent.parent.left {
          cur := InsertStepLeft(cur);
        } else {
          cur := InsertStepRight(cur);
        }
        assert Link(cur);
      }
      BlackenRoot(cur);
    }

    // ---------- rebalancing after an erasure ----------

    ghost predicate ShortLeft(p: Node, cur: Node)
      reads p`left, p`right, p`bh, p`color, cur`bh, p.right`bh
    {
      p.left == cur && p.right.bh == cur.bh + 1 && p.bh == p.right.bh + (if p.color == Black then 1 else 0)
    }

    ghost predicate ShortRight(p: Node, cur: Node)
      reads p`left, p`right, p`bh, p`color, cur`bh, p.left`bh
    {
      p.right == cur && p.left.bh == cur.bh + 1 && p.bh == p.left.bh + (if p.color == Black then 1 else 0)
    }

    ghost function Beside(p: Node?): set<Node>
      reads {p}`left, {p}`right
    {
      if p == null then {} else {p.left} + {p.right}
    }

    /** The subtree at `cur` is one black node short, and only `cur` may be red next to red. */
    ghost predicate Erasing(cur: Node)
      reads this`order, this`root, nil`left, nil`right, nil`color, nil`bh, nil`key
      reads order`left, order`right, order`parent, Around()`lo, Around()`pos, Around()`hi
      reads Around()`left, Around()`right, Around()`parent, Around()`color, Around()`bh
      reads cur`parent, cur`bh, cur`color
      reads {cur.parent}`left, {cur.parent}`right, {cur.parent}`bh, {cur.parent}`color, Beside(cur.parent)`bh
    {
      && Shape() && Nil() && cur.bh >= 0
      && (cur == nil || cur in order) && cur.parent != null
      && (root.color == Red ==> cur == root)
      && (cur == root ==> Levels())
      && (cur != root ==>
        && cur.parent in order
        && (ShortLeft(cur.parent, cur) || ShortRight(cur.parent, cur))
        && forall n {:trigger Level(n)} | n in order && n != cur.parent :: Level(n))
      && (forall n {:trigger RedEdge(n, cur)} | n in order && n != cur :: RedEdge(n, cur))
    }

    ghost predicate ErasingLeft(cur: Node)
      reads this`order, this`root, nil`left, nil`right, nil`color, nil`bh, nil`key
      reads order`left, order`right, order`parent, Around()`lo, Around()`pos, Around()`hi
      reads Around()`left, Around()`right, Around()`parent, Around()`color, Around()`bh
      reads cur`parent, cur`bh, cur`color
      reads {cur.parent}`left, {cur.parent}`right, {cur.parent}`bh, {cur.parent}`color, Beside(cur.parent)`bh
    {
      Erasing(cur) && cur != root && cur.color == Black && cur.parent.left == cur && ShortLeft(cur.parent, cur)
    }

    lemma ErasingPartsLeft(cur: Node)
      requires ErasingLeft(cur)
      ensures cur.parent in order && cur.parent.right in order && cur.parent.right.parent == cur.parent
      ensures cur.parent != cur.parent.right && cur.parent != cur && cur.parent.right != cur
      ensures Link(cur.parent) && Link(cur.parent.right) && Level(cur.parent.right)
      ensures RedEdge(cur.parent, cur) && RedEdge(cur.parent.right, cur)
      ensures var n := cur.parent.right.left; n != nil ==> n in order && Link(n) && Level(n)
      ensures var n := cur.parent.right.right; n != nil ==> n in order && Link(n) && Level(n)
    {
      var p := cur.parent;
      assert Link(p);
      assert Link(p.right) && Level(p.right) && RedEdge(p, cur) && RedEdge(p.right, cur);
      if p.right.left != nil { assert Link(p.right.left) && Level(p.right.left); }
      if p.right.right != nil { assert Link(p.right.right) && Level(p.right.right); }
    }

    // The sibling is red: it is rotated up and blackened, its old parent reddened.

    twostate predicate RedSiblingRaisedLeft(cur: Node)
      requires old(cur.parent != null && cur.parent in order)
      reads this, nil, order
    {
      var p := old(cur.parent);
      var s := old(cur.parent.right);
      && old(In(p)) && RotatedLeft(p)
      && (forall n {:trigger n.color} | n in order ::
        n.color == if n == s then Black else if n == p then Red else old(n.color))
      && (forall n {:trigger n.bh} | n in order ::
        n.bh == if n == s then old(n.bh) + 1 else if n == p then old(n.bh) - 1 else old(n.bh))
    }

    twostate lemma RedSiblingLevelsLeft(cur: Node)
      requires old(ErasingLeft(cur) && cur.parent.right.color == Red)
      requires RedSiblingRaisedLeft(cur) && Shape() && Nil() && cur.bh == old(cur.bh)
      ensures ShortLeft(old(cur.parent), cur)
      ensures forall n {:trigger Level(n)} | n in order && n != old(cur.parent) :: Level(n)
    {
      assert old(Link(cur.parent) && RedEdge(cur.parent, cur));
      assert old(Link(cur.parent.right) && Level(cur.parent.right) && RedEdge(cur.parent.right, cur));
      forall n | n in order && n != old(cur.parent) ensures Level(n) {
        assert old(Link(n));
        assert old(Level(n));
      }
    }

    twostate lemma RedSiblingEdgesLeft(cur: Node)
      requires old(ErasingLeft(cur) && cur.parent.right.color == Red)
      requires RedSiblingRaisedLeft(cur) && Shape() && Nil()
      ensures forall n {:trigger RedEdge(n, cur)} | n in order && n != cur :: RedEdge(n, cur)
      ensures root.color == Black && root != cur
      ensures old(cur.parent).right.color == Black
    {
      assert old(Link(cur.parent) && RedEdge(cur.parent, cur));
      assert old(Link(cur.parent.right) && Level(cur.parent.right) && RedEdge(cur.parent.right, cur));
      forall n | n in order && n != cur ensures RedEdge(n, cur) {
        assert old(Link(n));
        assert old(RedEdge(n, cur));
      }
    }

    method RaiseRedSiblingLeft(cur: Node)
      requires ErasingLeft(cur) && cur.parent.right.color == Red
      modifies this`root, order`left, order`right, order`parent, order`lo, order`hi, order`color, order`bh
      ensures cur.parent == old(cur.parent) && RedSiblingRaisedLeft(cur) && Shape() && Nil()
    {
      ErasingPartsLeft(cur);
      var p := cur.parent;
      var s := p.right;
      Exchange(s, p);
      label Colored:
      RotateLeft(p);
      RotatedLeftShape@Colored(p);
    }

    method CaseRedSiblingLeft(cur: Node)
      requires ErasingLeft(cur) && cur.parent.right.color == Red
      modifies this`root, order`left, order`right, order`parent, order`lo, order`hi, order`color, order`bh
      ensures ErasingLeft(cur) && cur.parent == old(cur.parent) && cur.parent.right.color == Black
      ensures Span(cur) == old(Span(cur))
    {
      ErasingPartsLeft(cur);
      RaiseRedSiblingLeft(cur);
      RedSiblingLevelsLeft(cur);
      RedSiblingEdgesLeft(cur);
    }

    // Both nephews are black: the sibling is reddened and the parent is now short.

    twostate predicate SiblingReddenedLeft(cur: Node)
      requires old(cur.parent != null && cur.parent in order)
      reads this, nil, order
    {
      var p := old(cur.parent);
      var s := old(cur.parent.right);
      && SameLinks()
      && (forall n {:trigger n.color} | n in order :: n.color == if n == s then Red else old(n.color))
      && (forall n {:trigger n.bh} | n in order :: n.bh == if n == s || n == p then old(n.bh) - 1 else old(n.bh))
    }

    twostate lemma SiblingReddenedLevelsLeft(cur: Node)
      requires old(ErasingLeft(cur) && cur.parent.right.color == Black)
      requires old(cur.parent.right.left.color == Black && cur.parent.right.right.color == Black)
      requires SiblingReddenedLeft(cur) && Shape() && Nil() && cur.bh == old(cur.bh)
      ensures var p := old(cur.parent); p == root ==> Levels()
      ensures var p := old(cur.parent); p != root ==>
        p.parent != null && p.parent in order && (ShortLeft(p.parent, p) || ShortRight(p.parent, p))
      ensures var p := old(cur.parent); p != root ==>
        forall n {:trigger Level(n)} | n in order && n != p.parent :: Level(n)
    {
      var p := old(cur.parent);
      assert old(Link(cur.parent));
      assert old(Link(cur.parent.right) && Level(cur.parent.right));
      if p != root {
        assert old(Link(cur.parent.parent) && Level(cur.parent.parent));
      }
      forall n | n in order && (p != root ==> n != p.parent) ensures Level(n) {
        assert old(Link(n));
        if n != p { assert old(Level(n)); }
      }
    }

    twostate lemma SiblingReddenedEdgesLeft(cur: Node)
      requires old(ErasingLeft(cur) && cur.parent.right.color == Black)
      requires old(cur.parent.right.left.color == Black && cur.parent.right.right.color == Black)
      requires SiblingReddenedLeft(cur) && Shape() && Nil()
      ensures forall n {:trigger RedEdge(n, old(cur.parent))} | n in order && n != old(cur.parent) ::
        RedEdge(n, old(cur.parent))
      ensures root.color == Black
    {
      assert old(Link(cur.parent));
      assert old(Link(cur.parent.right));
      forall n | n in order && n != old(cur.parent) ensures RedEdge(n, old(cur.parent)) {
        assert old(Link(n));
        if n != cur { assert old(RedEdge(n, cur)); }
      }
    }

    method ReddenSiblingLeft(cur: Node)
      requires ErasingLeft(cur) && cur.parent.right.color == Black
      modifies order`color, order`bh
      ensures SiblingReddenedLeft(cur) && Nil()
    {
      ErasingPartsLeft(cur);
      var p := cur.parent;
      p.right.color := Red;
      p.right.bh := p.right.bh - 1;
      p.bh := p.bh - 1;
    }

    method CaseBlackNephewsLeft(cur: Node)
      requires ErasingLeft(cur) && cur.parent.right.color == Black
      requires cur.parent.right.left.color == Black && cur.parent.right.right.color == Black
      modifies order`color, order`bh
      ensures cur.parent == old(cur.parent) && Erasing(cur.parent) && cur.parent.left == cur
    {
      ErasingPartsLeft(cur);
      ReddenSiblingLeft(cur);
      SameLinksKeepShape();
      SiblingReddenedLevelsLeft(cur);
      SiblingReddenedEdgesLeft(cur);
      assert old(Level(cur.parent.right));
    }

    // The far nephew is black, so the near one is red: it is rotated up over the sibling.

    twostate predicate NearNephewRaisedLeft(cur: Node)
      requires old(cur.parent != null && cur.parent in order && cur.parent.right in order)
      reads this, nil, order
    {
      var s := old(cur.parent.right);
      var near := old(cur.parent.right.left);
      && old(In(s)) && RotatedRight(s)
      && (forall n {:trigger n.color} | n in order ::
        n.color == if n == near then Black else if n == s then Red else old(n.color))
      && (forall n {:trigger n.bh} | n in order ::
        n.bh == if n == near then old(n.bh) + 1 else if n == s then old(n.bh) - 1 else old(n.bh))
    }

    twostate lemma NearNephewLevelsLeft(cur: Node)
      requires old(ErasingLeft(cur) && cur.parent.right in order && cur.parent.right.color == Black)
      requires old(cur.parent.right.left.color == Red && cur.parent.right.right.color == Black)
      requires NearNephewRaisedLeft(cur) && Shape() && Nil() && cur.bh == old(cur.bh)
      ensures ShortLeft(old(cur.parent), cur)
      ensures forall n {:trigger Level(n)} | n in order && n != old(cur.parent) :: Level(n)
    {
      assert old(Link(cur.parent));
      assert old(Link(cur.parent.right) && Level(cur.parent.right));
      assert old(Link(cur.parent.right.left) && Level(cur.parent.right.left));
      forall n | n in order && n != old(cur.parent) ensures Level(n) {
        assert old(Link(n));
        assert old(Level(n));
      }
    }

    twostate lemma NearNephewEdgesLeft(cur: Node)
      requires old(ErasingLeft(cur) && cur.parent.right in order && cur.parent.right.color == Black)
      requires old(cur.parent.right.left.color == Red && cur.parent.right.right.color == Black)
      requires NearNephewRaisedLeft(cur) && Shape() && Nil()
      ensures forall n {:trigger RedEdge(n, cur)} | n in order && n != cur :: RedEdge(n, cur)
      ensures root.color == Black && root == old(root)
      ensures old(cur.parent).left == cur && old(cur.parent).right == old(cur.parent.right.left)
      ensures old(cur.parent).right.color == Black && old(cur.parent).right.right.color == Red
    {
      assert old(Link(cur.parent) && RedEdge(cur.parent, cur));
      assert old(Link(cur.parent.right));
      assert old(Link(cur.parent.right.left) && RedEdge(cur.parent.right.left, cur));
      forall n | n in order && n != cur ensures RedEdge(n, cur) {
        assert old(Link(n));
        assert old(RedEdge(n, cur));
      }
    }

    method RaiseNearNephewLeft(cur: Node)
      requires ErasingLeft(cur) && cur.parent.right in order && cur.parent.right.color == Black
      requires cur.parent.right.left.color == Red && cur.parent.right.right.color == Black
      modifies this`root, order`left, order`right, order`parent, order`lo, order`hi, order`color, order`bh
      ensures cur.parent == old(cur.parent) && NearNephewRaisedLeft(cur) && Shape() && Nil()
    {
      ErasingPartsLeft(cur);
      var s := cur.parent.right;
      var near := s.left;
      Exchange(near, s);
      label Colored:
      RotateRight(s);
      RotatedRightShape@Colored(s);
    }

    method CaseNearNephewLeft(cur: Node)
      requires ErasingLeft(cur) && cur.parent.right in order && cur.parent.right.color == Black
      requires cur.parent.right.left.color == Red && cur.parent.right.right.color == Black
      modifies this`root, order`left, order`right, order`parent, order`lo, order`hi, order`color, order`bh
      ensures ErasingLeft(cur) && cur.parent == old(cur.parent)
      ensures cur.parent.right.color == Black && cur.parent.right.right.color == Red
    {
      RaiseNearNephewLeft(cur);
      NearNephewLevelsLeft(cur);
      NearNephewEdgesLeft(cur);
    }

    // The far nephew is red: one rotation of the parent ends the repair.

    twostate predicate FarNephewSettledLeft(cur: Node)
      requires old(cur.parent != null && cur.parent in order)
      reads this, nil, order
    {
      var p := old(cur.parent);
      var s := old(cur.parent.right);
      var far := old(cur.parent.right.right);
      && old(In(p)) && RotatedLeft(p)
      && (forall n {:trigger n.color} | n in order ::
        n.color == if n == s then old(p.color) else if n == p || n == far then Black else old(n.color))
      && (forall n {:trigger n.bh} | n in order ::
        n.bh == if n == s then old(p.bh) else if n == p || n == far then old(s.bh) else old(n.bh))
    }

    twostate lemma FarNephewLevelsLeft(cur: Node)
      requires old(ErasingLeft(cur) && cur.parent.right.color == Black && cur.parent.right.right.color == Red)
      requires FarNephewSettledLeft(cur) && Shape() && Nil() && cur.bh == old(cur.bh)
      ensures Levels()
    {
      assert old(Link(cur.parent));
      assert old(Link(cur.parent.right) && Level(cur.parent.right));
      assert old(Link(cur.parent.right.right) && Level(cur.parent.right.right));
      forall n | n in order ensures Level(n) {
        assert old(Link(n));
        if n != old(cur.parent) { assert old(Level(n)); }
      }
    }

    twostate lemma FarNephewEdgesLeft(cur: Node)
      requires old(ErasingLeft(cur) && cur.parent.right.color == Black && cur.parent.right.right.color == Red)
      requires FarNephewSettledLeft(cur) && Shape() && Nil()
      ensures RedEdges(nil) && root.color == Black
    {
      assert old(Link(cur.parent) && RedEdge(cur.parent, cur));
      assert old(Link(cur.parent.right));
      assert old(Link(cur.parent.right.right) && RedEdge(cur.parent.right.right, cur));
      forall n | n in order ensures RedEdge(n, nil) {
        assert old(Link(n));
        if n != cur { assert old(RedEdge(n, cur)); }
      }
    }

    method PaintFarLeft(p: Node)
      requires p in order && p.right in order && p.right.right in order && p.right != p && p.right.right != p
      requires p.right.right != p.right
      modifies order`color, order`bh
      ensures var s := p.right; var far := p.right.right;
        && (forall n {:trigger n.color} | n in order ::
          n.color == if n == s then old(p.color) else if n == p || n == far then Black else old(n.color))
        && (forall n {:trigger n.bh} | n in order ::
          n.bh == if n == s then old(p.bh) else if n == p || n == far then old(s.bh) else old(n.bh))
    {
      var s := p.right;
      s.color := p.color;
      p.color := Black;
      s.right.color := Black;
      ghost var b := s.bh;
      s.bh := p.bh;
      p.bh := b;
      s.right.bh := b;
    }

    method SettleFarNephewLeft(cur: Node)
      requires ErasingLeft(cur) && cur.parent.right.color == Black && cur.parent.right.right.color == Red
      modifies this`root, order`left, order`right, order`parent, order`lo, order`hi, order`color, order`bh
      ensures FarNephewSettledLeft(cur) && Shape() && Nil()
    {
      ErasingPartsLeft(cur);
      var p := cur.parent;
      PaintFarLeft(p);
      label Colored:
      RotateLeft(p);
      RotatedLeftShape@Colored(p);
    }

    method CaseFarNephewLeft(cur: Node)
      requires ErasingLeft(cur) && cur.parent.right.color == Black && cur.parent.right.right.color == Red
      modifies this`root, order`left, order`right, order`parent, order`lo, order`hi, order`color, order`bh
      ensures Shape() && Nil() && Levels() && RedEdges(nil) && root.color == Black && root in order
    {
      SettleFarNephewLeft(cur);
      FarNephewLevelsLeft(cur);
      FarNephewEdgesLeft(cur);
      assert cur.bh == old(cur.bh) || cur == nil;
    }

    ghost predicate ErasingRight(cur: Node)
      reads this`order, this`root, nil`right, nil`left, nil`color, nil`bh, nil`key
      reads order`right, order`left, order`parent, Around()`lo, Around()`pos, Around()`hi
      reads Around()`right, Around()`left, Around()`parent, Around()`color, Around()`bh
      reads cur`parent, cur`bh, cur`color
      reads {cur.parent}`right, {cur.parent}`left, {cur.parent}`bh, {cur.parent}`color, Beside(cur.parent)`bh
    {
      Erasing(cur) && cur != root && cur.color == Black && cur.parent.right == cur && ShortRight(cur.parent, cur)
    }

    lemma ErasingPartsRight(cur: Node)
      requires ErasingRight(cur)
      ensures cur.parent in order && cur.parent.left in order && cur.parent.left.parent == cur.parent
      ensures cur.parent != cur.parent.left && cur.parent != cur && cur.parent.left != cur
      ensures Link(cur.parent) && Link(cur.parent.left) && Level(cur.parent.left)
      ensures RedEdge(cur.parent, cur) && RedEdge(cur.parent.left, cur)
      ensures var n := cur.parent.left.right; n != nil ==> n in order && Link(n) && Level(n)
      ensures var n := cur.parent.left.left; n != nil ==> n in order && Link(n) && Level(n)
    {
      var p := cur.parent;
      assert Link(p);
      assert Link(p.left) && Level(p.left) && RedEdge(p, cur) && RedEdge(p.left, cur);
      if p.left.right != nil { assert Link(p.left.right) && Level(p.left.right); }
      if p.left.left != nil { assert Link(p.left.left) && Level(p.left.left); }
    }

    // The sibling is red: it is rotated up and blackened, its old parent reddened.

    twostate predicate RedSiblingRaisedRight(cur: Node)
      requires old(cur.parent != null && cur.parent in order)
      reads this, nil, order
    {
      var p := old(cur.parent);
      var s := old(cur.parent.left);
      && old(In(p)) && RotatedRight(p)
      && (forall n {:trigger n.color} | n in order ::
        n.color == if n == s then Black else if n == p then Red else old(n.color))
      && (forall n {:trigger n.bh} | n in order ::
        n.bh == if n == s then old(n.bh) + 1 else if n == p then old(n.bh) - 1 else old(n.bh))
    }

    twostate lemma RedSiblingLevelsRight(cur: Node)
      requires old(ErasingRight(cur) && cur.parent.left.color == Red)
      requires RedSiblingRaisedRight(cur) && Shape() && Nil() && cur.bh == old(cur.bh)
      ensures ShortRight(old(cur.parent), cur)
      ensures forall n {:trigger Level(n)} | n in order && n != old(cur.parent) :: Level(n)
    {
      assert old(Link(cur.parent) && RedEdge(cur.parent, cur));
      assert old(Link(cur.parent.left) && Level(cur.parent.left) && RedEdge(cur.parent.left, cur));
      forall n | n in order && n != old(cur.parent) ensures Level(n) {
        assert old(Link(n));
        assert old(Level(n));
      }
    }

    twostate lemma RedSiblingEdgesRight(cur: Node)
      requires old(ErasingRight(cur) && cur.parent.left.color == Red)
      requires RedSiblingRaisedRight(cur) && Shape() && Nil()
      ensures forall n {:trigger RedEdge(n, cur)} | n in order && n != cur :: RedEdge(n, cur)
      ensures root.color == Black && root != cur
      ensures old(cur.parent).left.color == Black
    {
      assert old(Link(cur.parent) && RedEdge(cur.parent, cur));
      assert old(Link(cur.parent.left) && Level(cur.parent.left) && RedEdge(cur.parent.left, cur));
      forall n | n in order && n != cur ensures RedEdge(n, cur) {
        assert old(Link(n));
        assert old(RedEdge(n, cur));
      }
    }

    method RaiseRedSiblingRight(cur: Node)
      requires ErasingRight(cur) && cur.parent.left.color == Red
      modifies this`root, order`right, order`left, order`parent, order`lo, order`hi, order`color, order`bh
      ensures cur.parent == old(cur.parent) && RedSiblingRaisedRight(cur) && Shape() && Nil()
    {
      ErasingPartsRight(cur);
      var p := cur.parent;
      var s := p.left;
      Exchange(s, p);
      label Colored:
      RotateRight(p);
      RotatedRightShape@Colored(p);
    }

    method CaseRedSiblingRight(cur: Node)
      requires ErasingRight(cur) && cur.parent.left.color == Red
      modifies this`root, order`right, order`left, order`parent, order`lo, order`hi, order`color, order`bh
      ensures ErasingRight(cur) && cur.parent == old(cur.parent) && cur.parent.left.color == Black
      ensures Span(cur) == old(Span(cur))
    {
      ErasingPartsRight(cur);
      RaiseRedSiblingRight(cur);
      RedSiblingLevelsRight(cur);
      RedSiblingEdgesRight(cur);
    }

    // Both nephews are black: the sibling is reddened and the parent is now short.

    twostate predicate SiblingReddenedRight(cur: Node)
      requires old(cur.parent != null && cur.parent in order)
      reads this, nil, order
    {
      var p := old(cur.parent);
      var s := old(cur.parent.left);
      && SameLinks()
      && (forall n {:trigger n.color} | n in order :: n.color == if n == s then Red else old(n.color))
      && (forall n {:trigger n.bh} | n in order :: n.bh == if n == s || n == p then old(n.bh) - 1 else old(n.bh))
    }

    twostate lemma SiblingReddenedLevelsRight(cur: Node)
      requires old(ErasingRight(cur) && cur.parent.left.color == Black)
      requires old(cur.parent.left.right.color == Black && cur.parent.left.left.color == Black)
      requires SiblingReddenedRight(cur) && Shape() && Nil() && cur.bh == old(cur.bh)
      ensures var p := old(cur.parent); p == root ==> Levels()
      ensures var p := old(cur.parent); p != root ==>
        p.parent != null && p.parent in order && (ShortRight(p.parent, p) || ShortLeft(p.parent, p))
      ensures var p := old(cur.parent); p != root ==>
        forall n {:trigger Level(n)} | n in order && n != p.parent :: Level(n)
    {
      hide Around;
      var p := old(cur.parent);
      assert old(Link(cur.parent));
      assert old(Link(cur.parent.left) && Level(cur.parent.left));
      if p != root {
        assert old(Link(cur.parent.parent) && Level(cur.parent.parent));
      }
      forall n | n in order && (p != root ==> n != p.parent) ensures Level(n) {
        assert old(Link(n));
        if n != p { assert old(Level(n)); }
      }
    }

    twostate lemma SiblingReddenedEdgesRight(cur: Node)
      requires old(ErasingRight(cur) && cur.parent.left.color == Black)
      requires old(cur.parent.left.right.color == Black && cur.parent.left.left.color == Black)
      requires SiblingReddenedRight(cur) && Shape() && Nil()
      ensures forall n {:trigger RedEdge(n, old(cur.parent))} | n in order && n != old(cur.parent) ::
        RedEdge(n, old(cur.parent))
      ensures root.color == Black
    {
      assert old(Link(cur.parent));
      assert old(Link(cur.parent.left));
      forall n | n in order && n != old(cur.parent) ensures RedEdge(n, old(cur.parent)) {
        assert old(Link(n));
        if n != cur { assert old(RedEdge(n, cur)); }
      }
    }

    method ReddenSiblingRight(cur: Node)
      requires ErasingRight(cur) && cur.parent.left.color == Black
      modifies order`color, order`bh
      ensures SiblingReddenedRight(cur) && Nil()
    {
      ErasingPartsRight(cur);
      var p := cur.parent;
      p.left.color := Red;
      p.left.bh := p.left.bh - 1;
      p.bh := p.bh - 1;
    }

    method CaseBlackNephewsRight(cur: Node)
      requires ErasingRight(cur) && cur.parent.left.color == Black
      requires cur.parent.left.right.color == Black && cur.parent.left.left.color == Black
      modifies order`color, order`bh
      ensures cur.parent == old(cur.parent) && Erasing(cur.parent) && cur.parent.right == cur
    {
      ErasingPartsRight(cur);
      ReddenSiblingRight(cur);
      SameLinksKeepShape();
      SiblingReddenedLevelsRight(cur);
      SiblingReddenedEdgesRight(cur);
      assert old(Level(cur.parent.left));
    }

    // The far nephew is black, so the near one is red: it is rotated up over the sibling.

    twostate predicate NearNephewRaisedRight(cur: Node)
      requires old(cur.parent != null && cur.parent in order && cur.parent.left in order)
      reads this, nil, order
    {
      var s := old(cur.parent.left);
      var near := old(cur.parent.left.right);
      && old(In(s)) && RotatedLeft(s)
      && (forall n {:trigger n.color} | n in order ::
        n.color == if n == near then Black else if n == s then Red else old(n.color))
      && (forall n {:trigger n.bh} | n in order ::
        n.bh == if n == near then old(n.bh) + 1 else if n == s then old(n.bh) - 1 else old(n.bh))
    }

    twostate lemma NearNephewLevelsRight(cur: Node)
      requires old(ErasingRight(cur) && cur.parent.left in order && cur.parent.left.color == Black)
      requires old(cur.parent.left.right.color == Red && cur.parent.left.left.color == Black)
      requires NearNephewRaisedRight(cur) && Shape() && Nil() && cur.bh == old(cur.bh)
      ensures ShortRight(old(cur.parent), cur)
      ensures forall n {:trigger Level(n)} | n in order && n != old(cur.parent) :: Level(n)
    {
      assert old(Link(cur.parent));
      assert old(Link(cur.parent.left) && Level(cur.parent.left));
      assert old(Link(cur.parent.left.right) && Level(cur.parent.left.right));
      forall n | n in order && n != old(cur.parent) ensures Level(n) {
        assert old(Link(n));
        assert old(Level(n));
      }
    }

    twostate lemma NearNephewEdgesRight(cur: Node)
      requires old(ErasingRight(cur) && cur.parent.left in order && cur.parent.left.color == Black)
      requires old(cur.parent.left.right.color == Red && cur.parent.left.left.color == Black)
      requires NearNephewRaisedRight(cur) && Shape() && Nil()
      ensures forall n {:trigger RedEdge(n, cur)} | n in order && n != cur :: RedEdge(n, cur)
      ensures root.color == Black && root == old(root)
      ensures old(cur.parent).right == cur && old(cur.parent).left == old(cur.parent.left.right)
      ensures old(cur.parent).left.color == Black && old(cur.parent).left.left.color == Red
    {
      assert old(Link(cur.parent) && RedEdge(cur.parent, cur));
      assert old(Link(cur.parent.left));
      assert old(Link(cur.parent.left.right) && RedEdge(cur.parent.left.right, cur));
      forall n | n in order && n != cur ensures RedEdge(n, cur) {
        assert old(Link(n));
        assert old(RedEdge(n, cur));
      }
    }

    method RaiseNearNephewRight(cur: Node)
      requires ErasingRight(cur) && cur.parent.left in order && cur.parent.left.color == Black
      requires cur.parent.left.right.color == Red && cur.parent.left.left.color == Black
      modifies this`root, order`right, order`left, order`parent, order`lo, order`hi, order`color, order`bh
      ensures cur.parent == old(cur.parent) && NearNephewRaisedRight(cur) && Shape() && Nil()
    {
      ErasingPartsRight(cur);
      var s := cur.parent.left;
      var near := s.right;
      Exchange(near, s);
      label Colored:
      RotateLeft(s);
      RotatedLeftShape@Colored(s);
    }

    method CaseNearNephewRight(cur: Node)
      requires ErasingRight(cur) && cur.parent.left in order && cur.parent.left.color == Black
      requires cur.parent.left.right.color == Red && cur.parent.left.left.color == Black
      modifies this`root, order`right, order`left, order`parent, order`lo, order`hi, order`color, order`bh
      ensures ErasingRight(cur) && cur.parent == old(cur.parent)
      ensures cur.parent.left.color == Black && cur.parent.left.left.color == Red
    {
      RaiseNearNephewRight(cur);
      NearNephewLevelsRight(cur);
      NearNephewEdgesRight(cur);
    }

    // The far nephew is red: one rotation of the parent ends the repair.

    twostate predicate FarNephewSettledRight(cur: Node)
      requires old(cur.parent != null && cur.parent in order)
      reads this, nil, order
    {
      var p := old(cur.parent);
      var s := old(cur.parent.left);
      var far := old(cur.parent.left.left);
      && old(In(p)) && RotatedRight(p)
      && (forall n {:trigger n.color} | n in order ::
        n.color == if n == s then old(p.color) else if n == p || n == far then Black else old(n.color))
      && (forall n {:trigger n.bh} | n in order ::
        n.bh == if n == s then old(p.bh) else if n == p || n == far then old(s.bh) else old(n.bh))
    }

    twostate lemma FarNephewLevelsRight(cur: Node)
      requires old(ErasingRight(cur) && cur.parent.left.color == Black && cur.parent.left.left.color == Red)
      requires FarNephewSettledRight(cur) && Shape() && Nil() && cur.bh == old(cur.bh)
      ensures Levels()
    {
      assert old(Link(cur.parent));
      assert old(Link(cur.parent.left) && Level(cur.parent.left));
      assert old(Link(cur.parent.left.left) && Level(cur.parent.left.left));
      forall n | n in order ensures Level(n) {
        assert old(Link(n));
        if n != old(cur.parent) { assert old(Level(n)); }
      }
    }

    twostate lemma FarNephewEdgesRight(cur: Node)
      requires old(ErasingRight(cur) && cur.parent.left.color == Black && cur.parent.left.left.color == Red)
      requires FarNephewSettledRight(cur) && Shape() && Nil()
      ensures RedEdges(nil) && root.color == Black
    {
      assert old(Link(cur.parent) && RedEdge(cur.parent, cur));
      assert old(Link(cur.parent.left));
      assert old(Link(cur.parent.left.left) && RedEdge(cur.parent.left.left, cur));
      forall n | n in order ensures RedEdge(n, nil) {
        assert old(Link(n));
        if n != cur { assert old(RedEdge(n, cur)); }
      }
    }

    method PaintFarRight(p: Node)
      requires p in order && p.left in order && p.left.left in order && p.left != p && p.left.left != p
      requires p.left.left != p.left
      modifies order`color, order`bh
      ensures var s := p.left; var far := p.left.left;
        && (forall n {:trigger n.color} | n in order ::
          n.color == if n == s then old(p.color) else if n == p || n == far then Black else old(n.color))
        && (forall n {:trigger n.bh} | n in order ::
          n.bh == if n == s then old(p.bh) else if n == p || n == far then old(s.bh) else old(n.bh))
    {
      var s := p.left;
      s.color := p.color;
      p.color := Black;
      s.left.color := Black;
      ghost var b := s.bh;
      s.bh := p.bh;
      p.bh := b;
      s.left.bh := b;
    }

    method SettleFarNephewRight(cur: Node)
      requires ErasingRight(cur) && cur.parent.left.color == Black && cur.parent.left.left.color == Red
      modifies this`root, order`right, order`left, order`parent, order`lo, order`hi, order`color, order`bh
      ensures FarNephewSettledRight(cur) && Shape() && Nil()
    {
      ErasingPartsRight(cur);
      var p := cur.parent;
      PaintFarRight(p);
      label Colored:
      RotateRight(p);
      RotatedRightShape@Colored(p);
    }

    method CaseFarNephewRight(cur: Node)
      requires ErasingRight(cur) && cur.parent.left.color == Black && cur.parent.left.left.color == Red
      modifies this`root, order`right, order`left, order`parent, order`lo, order`hi, order`color, order`bh
      ensures Shape() && Nil() && Levels() && RedEdges(nil) && root.color == Black && root in order
    {
      SettleFarNephewRight(cur);
      FarNephewLevelsRight(cur);
      FarNephewEdgesRight(cur);
      assert cur.bh == old(cur.bh) || cur == nil;
    }

    ghost function Span(n: Node): int
      reads n`lo, n`hi
    {
      if n == nil then 0 else n.hi - n.lo
    }

    /** The repair has reached the root, or a red node, and can end there. */
    lemma SettledIsErasing()
      requires Shape() && Nil() && Levels() && RedEdges(nil) && root.color == Black && root in order
      ensures Erasing(root)
    {
      assert Link(root) && Level(root);
      forall n | n in order && n != root ensures RedEdge(n, root) {
        assert RedEdge(n, nil);
      }
    }

    /** At least one nephew is red. */
    method CaseRedNephewLeft(cur: Node)
      requires ErasingLeft(cur) && cur.parent.right.color == Black
      requires cur.parent.right.left.color == Red || cur.parent.right.right.color == Red
      modifies this`root, order`left, order`right, order`parent, order`lo, order`hi, order`color, order`bh
      ensures Shape() && Nil() && Levels() && RedEdges(nil) && root.color == Black && root in order
    {
      ErasingPartsLeft(cur);
      if cur.parent.right.right.color == Black {
        CaseNearNephewLeft(cur);
      }
      CaseFarNephewLeft(cur);
    }

    method EraseBlackSiblingLeft(cur: Node) returns (next: Node)
      requires ErasingLeft(cur) && cur.parent.right.color == Black
      modifies this`root, order`left, order`right, order`parent, order`lo, order`hi, order`color, order`bh
      ensures Erasing(next) && (next == root || Span(next) > old(Span(cur)))
    {
      var sibling := cur.parent.right;
      if sibling.left.color == Black && sibling.right.color == Black {
        CaseBlackNephewsLeft(cur);
        next := cur.parent;
        assert Link(next);
      } else {
        CaseRedNephewLeft(cur);
        next := root;
        SettledIsErasing();
      }
    }

    /** One round of the loop when the short subtree is a left child. */
    method EraseStepLeft(cur: Node) returns (next: Node)
      requires Erasing(cur) && cur != root && cur.color == Black && cur.parent != null && cur == cur.parent.left
      modifies this`root, order`left, order`right, order`parent, order`lo, order`hi, order`color, order`bh
      ensures Erasing(next) && (next == root || Span(next) > old(Span(cur)))
    {
      if cur.parent.right.color == Red {
        CaseRedSiblingLeft(cur);
      }
      next := EraseBlackSiblingLeft(cur);
    }

    /** At least one nephew is red. */
    method CaseRedNephewRight(cur: Node)
      requires ErasingRight(cur) && cur.parent.left.color == Black
      requires cur.parent.left.right.color == Red || cur.parent.left.left.color == Red
      modifies this`root, order`right, order`left, order`parent, order`lo, order`hi, order`color, order`bh
      ensures Shape() && Nil() && Levels() && RedEdges(nil) && root.color == Black && root in order
    {
      ErasingPartsRight(cur);
      if cur.parent.left.left.color == Black {
        CaseNearNephewRight(cur);
      }
      CaseFarNephewRight(cur);
    }

    method EraseBlackSiblingRight(cur: Node) returns (next: Node)
      requires ErasingRight(cur) && cur.parent.left.color == Black
      modifies this`root, order`right, order`left, order`parent, order`lo, order`hi, order`color, order`bh
      ensures Erasing(next) && (next == root || Span(next) > old(Span(cur)))
    {
      var sibling := cur.parent.left;
      if sibling.right.color == Black && sibling.left.color == Black {
        CaseBlackNephewsRight(cur);
        next := cur.parent;
        assert Link(next);
      } else {
        CaseRedNephewRight(cur);
        next := root;
        SettledIsErasing();
      }
    }

    /** One round of the loop when the short subtree is a right child. */
    method EraseStepRight(cur: Node) returns (next: Node)
      requires Erasing(cur) && cur != root && cur.color == Black && cur.parent != null && cur == cur.parent.right
      modifies this`root, order`right, order`left, order`parent, order`lo, order`hi, order`color, order`bh
      ensures Erasing(next) && (next == root || Span(next) > old(Span(cur)))
    {
      if cur.parent.left.color == Red {
        CaseRedSiblingRight(cur);
      }
      next := EraseBlackSiblingRight(cur);
    }

    /** Restores the colours after a black node has been taken out above `child`. */
    method EraseFixup(child: Node)
      requires Erasing(child)
      modifies nil`color, this`root, order`left, order`right, order`parent, order`lo, order`hi, order`color, order`bh
      ensures Shape() && Nil() && Levels() && RedEdges(nil) && root.color == Black
    {
      var cur := child;
      while cur != root && cur.color == Black
        invariant Erasing(cur)
        decreases if cur == root then -1 else |order| - Span(cur)
      {
        SpanBound(cur);
        if cur == cur.parent.left {
          cur := EraseStepLeft(cur);
        } else {
          cur := EraseStepRight(cur);
        }
      }
      FinishErase(cur);
    }

    lemma SpanBound(cur: Node)
      requires Erasing(cur)
      ensures Span(cur) <= |order|
    {
      if cur != nil { assert Link(cur); }
    }

    method FinishErase(cur: Node)
      requires Erasing(cur) && (cur == root || cur.color == Red)
      modifies nil`color, order`color, order`bh
      ensures Shape() && Nil() && Levels() && RedEdges(nil) && root.color == Black
    {
      hide Around;
      if cur.color == Red {
        assert Link(cur);
        cur.bh := cur.bh + 1;
      }
      cur.color := Black;
      forall n | n in order ensures Level(n) {
        assert old(Link(n));
        if n != old(cur.parent) || cur == root { assert old(Level(n)); }
      }
      forall n | n in order ensures RedEdge(n, nil) {
        assert old(Link(n));
        if n != cur { assert old(RedEdge(n, cur)); }
      }
    }

    // ---------- taking a node out ----------

    ghost function Heir(e: Node): Node
      reads e`left, e`right
    {
      if e.left != nil then e.left else e.right
    }

    /** The node `e`, which had at most one child, is gone and its child hangs in its place. */
    twostate predicate Spliced(e: Node)
      requires old(In(e))
      reads this`order, this`root, nil`left, nil`right
      reads order`left, order`right, order`parent, order`pos, order`lo, order`hi
    {
      var k := old(e.pos);
      var child := old(Heir(e));
      var up := old(e.parent);
      && order == old(order[..k] + order[k + 1..])
      && root == (if up == nil then child else old(root))
      && nil.left == old(nil.left) && nil.right == old(nil.right)
      && (forall i {:trigger order[i]} | 0 <= i < |order| :: order[i] == old(order)[if i < k then i else i + 1])
      && (forall n {:trigger n.left} | n in order ::
        n.left == if n == up && old(n.left) == e then child else old(n.left))
      && (forall n {:trigger n.right} | n in order ::
        n.right == if n == up && old(n.left) != e then child else old(n.right))
      && (forall n {:trigger n.parent} | n in order :: n.parent == if n == child then up else old(n.parent))
      && (forall n {:trigger n.pos} | n in order :: n.pos == if old(n.pos) > k then old(n.pos) - 1 else old(n.pos))
      && (forall n {:trigger n.lo} | n in order :: n.lo == if old(n.lo) > k then old(n.lo) - 1 else old(n.lo))
      && (forall n {:trigger n.hi} | n in order :: n.hi == if old(n.hi) > k then old(n.hi) - 1 else old(n.hi))
    }

    twostate lemma SplicedOrder(e: Node)
      requires old(Shape() && In(e) && (e.left == nil || e.right == nil)) && Spliced(e)
      ensures forall n {:trigger n in order} :: n in order <==> n in old(order) && n != e
      ensures forall i | 0 <= i < |order| :: order[i].pos == i
      ensures |order| == old(|order|) - 1 && nil !in order
    {
      forall n | n in old(order) && n != e ensures n in order {
        assert old(order[n.pos] == n);
        var k := old(e.pos);
        assert n == order[if old(n.pos) < k then old(n.pos) else old(n.pos) - 1];
      }
    }

    twostate lemma SplicedDownLeft(e: Node)
      requires old(Shape() && e in order && In(e) && (e.left == nil || e.right == nil)) && Spliced(e)
      ensures forall n | n in order :: DownLeft(n)
    {
      SplicedOrder(e);
      assert old(Link(e));
      forall n | n in order ensures DownLeft(n) {
        assert old(Link(n));
      }
    }

    twostate lemma SplicedDownRight(e: Node)
      requires old(Shape() && e in order && In(e) && (e.left == nil || e.right == nil)) && Spliced(e)
      ensures forall n | n in order :: DownRight(n)
    {
      SplicedOrder(e);
      assert old(Link(e));
      forall n | n in order ensures DownRight(n) {
        assert old(Link(n));
      }
    }

    twostate lemma SplicedUp(e: Node)
      requires old(Shape() && e in order && In(e) && (e.left == nil || e.right == nil)) && Spliced(e)
      ensures forall n | n in order :: Up(n)
    {
      SplicedOrder(e);
      assert old(Link(e));
      forall n | n in order ensures Up(n) {
        assert old(Link(n));
      }
    }

    twostate lemma SplicedBounds(e: Node)
      requires old(Shape() && e in order && In(e) && (e.left == nil || e.right == nil)) && Spliced(e)
      ensures forall n | n in order :: 0 <= n.lo && n.hi <= |order|
    {
      SplicedOrder(e);
      forall n | n in order ensures 0 <= n.lo && n.hi <= |order| {
        assert old(Link(n));
      }
    }

    twostate lemma SplicedShape(e: Node)
      requires old(Shape() && e in order && In(e) && (e.left == nil || e.right == nil)) && Spliced(e)
      ensures Shape()
    {
      SplicedDownLeft(e);
      SplicedDownRight(e);
      SplicedUp(e);
      SplicedBounds(e);
      SplicedOrder(e);
      assert old(Link(e));
    }

    /** Nothing but the links changed, and `e` was part of a sound tree. */
    twostate predicate SplicedFromSound(e: Node)
      reads this`order, this`root, nil`left, nil`right, nil`color, nil`bh, nil`key
      reads order`left, order`right, order`parent, order`pos, order`lo, order`hi, order`color, order`bh
    {
      && old(Shape() && e in order && In(e) && (e.left == nil || e.right == nil) && Nil() && Levels() && RedEdges(nil))
      && old(root.color == Black)
      && Spliced(e) && Nil()
      && (forall n | n in order :: n.color == old(n.color))
      && (forall n | n in order :: n.bh == old(n.bh))
    }

    twostate lemma SplicedLevels(e: Node)
      requires SplicedFromSound(e) && Shape()
      ensures old(Heir(e)).bh >= 0
      ensures old(e.parent) == nil || old(e.color) == Red ==> Levels()
      ensures forall n {:trigger Level(n)} | n in order && n != old(e.parent) :: Level(n)
    {
      hide RedEdge;
      SplicedOrder(e);
      assert old(Link(e) && Level(e) && RedEdge(e, nil));
      var up := old(e.parent);
      assert up != nil ==> old(Link(up) && Level(up));
      forall n | n in order && (up == nil || old(e.color) == Red || n != up) ensures Level(n) {
        assert old(Link(n) && Level(n));
      }
    }

    twostate lemma SplicedShort(e: Node)
      requires SplicedFromSound(e) && Shape()
      requires old(e.parent) != nil && old(e.color) == Black
      ensures old(e.parent) != null && old(e.parent) in order
      ensures ShortLeft(old(e.parent), old(Heir(e))) || ShortRight(old(e.parent), old(Heir(e)))
    {
      SplicedOrder(e);
      assert old(Link(e) && Level(e));
      assert old(Link(e.parent) && Level(e.parent));
    }

    twostate lemma SplicedEdges(e: Node)
      requires SplicedFromSound(e) && Shape()
      ensures var child := old(Heir(e)); forall n {:trigger RedEdge(n, child)} | n in order && n != child ::
        RedEdge(n, child)
      ensures old(e.color) == Red ==> RedEdges(nil) && root.color == Black
      ensures root.color == Red ==> old(Heir(e)) == root
    {
      SplicedOrder(e);
      assert old(Link(e) && RedEdge(e, nil));
      assert old(e.parent) != nil ==> old(Link(e.parent) && RedEdge(e.parent, nil));
      var child := old(Heir(e));
      forall n | n in order ensures (n != child ==> RedEdge(n, child)) && (old(e.color) == Red ==> RedEdge(n, nil)) {
        assert old(Link(n) && RedEdge(n, nil));
      }
    }

    twostate lemma SplicedSettles(e: Node)
      requires SplicedFromSound(e) && Shape() && old(Heir(e)).parent == old(e.parent)
      ensures old(e.color) == Black ==> Erasing(old(Heir(e)))
      ensures old(e.color) == Red ==> Levels() && RedEdges(nil) && root.color == Black
    {
      SplicedOrder(e);
      SplicedLevels(e);
      SplicedEdges(e);
      var child := old(Heir(e));
      assert old(Link(e));
      assert child != nil ==> Link(child);
      if old(e.color) == Black && old(e.parent) != nil {
        SplicedShort(e);
      }
    }

    twostate lemma SplicedResult(e: Node)
      requires old(Shape() && Nil() && Levels() && RedEdges(nil) && root.color == Black)
      requires old(e in order && In(e) && (e.left == nil || e.right == nil))
      requires Spliced(e) == true && Nil() && old(Heir(e)).parent == old(e.parent)
      requires forall n {:trigger n in old(order)} | n in old(order) :: n.color == old(n.color) && n.bh == old(n.bh)
      ensures old(e.color) == Black ==> Erasing(old(Heir(e))) == true
      ensures old(e.color) == Red ==> Shape() && Nil() && Levels() && RedEdges(nil) && root.color == Black
      ensures |order| == old(|order|) - 1
      ensures forall n {:trigger n in order} :: n in order <==> n in old(order) && n != e
    {
      SplicedShape(e);
      SplicedOrder(e);
      SplicedSettles(e);
    }

    /** Takes place `k` out of all the numbering. */
    ghost method CloseGap(k: int)
      requires 0 <= k < |order| && forall i | 0 <= i < |order| :: order[i].pos == i
      modifies this`order, order`lo, order`hi, order`pos
      ensures order == old(order[..k] + order[k + 1..])
      ensures forall i {:trigger order[i]} | 0 <= i < |order| :: order[i] == old(order)[if i < k then i else i + 1]
      ensures forall n {:trigger n in order} :: n in order ==> n in old(order)
      ensures forall n {:trigger n.pos} | n in old(order) ::
        n.pos == if old(n.pos) > k then old(n.pos) - 1 else old(n.pos)
      ensures forall n {:trigger n.lo} | n in old(order) :: n.lo == if old(n.lo) > k then old(n.lo) - 1 else old(n.lo)
      ensures forall n {:trigger n.hi} | n in old(order) :: n.hi == if old(n.hi) > k then old(n.hi) - 1 else old(n.hi)
    {
      forall n | n in order {
        n.lo := if n.lo > k then n.lo - 1 else n.lo;
      }
      forall n | n in order {
        n.hi := if n.hi > k then n.hi - 1 else n.hi;
      }
      forall n | n in order {
        n.pos := if n.pos > k then n.pos - 1 else n.pos;
      }
      order := order[..k] + order[k + 1..];
    }

    /** Hangs the only child of `e`, or nil, in the place of `e`. */
    method Unhang(e: Node)
      requires Shape() && e in order && In(e) && (e.left == nil || e.right == nil)
      modifies nil`parent, this`root, order`left, order`right, order`parent
      ensures root == (if old(e.parent) == nil then old(Heir(e)) else old(root))
      ensures forall n {:trigger n.left} | n in order ::
        n.left == if n == old(e.parent) && old(n.left) == e then old(Heir(e)) else old(n.left)
      ensures forall n {:trigger n.right} | n in order ::
        n.right == if n == old(e.parent) && old(n.left) != e then old(Heir(e)) else old(n.right)
      ensures forall n {:trigger n.parent} | n in order ::
        n.parent == if n == old(Heir(e)) then old(e.parent) else old(n.parent)
      ensures nil.left == nil && nil.right == nil && old(Heir(e)).parent == old(e.parent)
    {
      assert Link(e);
      var child := if e.left != nil then e.left else e.right;
      assert child != nil ==> Link(child);
      Transplant(e, child);
    }

    /** Unlinks `e`, whose only child, if any, takes its place. */
    method Splice(e: Node)
      requires Shape() && e in order && In(e) && (e.left == nil || e.right == nil)
      modifies nil`parent, this`root, this`order, order`left, order`right, order`parent, order`lo, order`hi, order`pos
      ensures Spliced(e) && old(Heir(e)).parent == old(e.parent)
    {
      Unhang(e);
      CloseGap(e.pos);
    }

    // ---------- hanging a new leaf in ----------

    /** `node` became a leaf below `node.parent`, at place `node.pos`; the subtrees that
        contain its parent grew by one and those to the right of it moved by one. */
    twostate predicate Hung(node: Node)
      requires node.parent != null
      reads this`order, this`root, nil`left, nil`right
      reads node`parent, node`pos, node`left, node`right, node`lo, node`hi
      reads order`left, order`right, order`parent, order`pos, order`lo, order`hi
    {
      var p: Node := node.parent;
      var k := node.pos;
      && 0 <= k <= old(|order|)
      && order == old(order)[..k] + [node] + old(order)[k..]
      && (p == nil ==> old(order) == [] && root == node)
      && (p == nil || (p in old(order) && old(In(p)) && root == old(root) && (k == old(p.pos) || k == old(p.pos) + 1)
        && (if k == old(p.pos) then old(p.left) == nil else old(p.right) == nil)))
      && node.left == nil && node.right == nil && node.lo == k && node.hi == k + 1
      && nil.left == old(nil.left) && nil.right == old(nil.right)
      && (forall i {:trigger order[i]} | 0 <= i < |order| ::
        order[i] == if i < k then old(order)[i] else if i == k then node else old(order)[i - 1])
      && (forall n {:trigger n.left} | n in order && n in old(order) ::
        n.left == if n == p && k == old(p.pos) then node else old(n.left))
      && (forall n {:trigger n.right} | n in order && n in old(order) ::
        n.right == if n == p && k != old(p.pos) then node else old(n.right))
      && (forall n {:trigger n.parent} | n in order && n in old(order) :: n.parent == old(n.parent))
      && (forall n {:trigger n.pos} | n in order && n in old(order) ::
        n.pos == if old(n.pos) >= k then old(n.pos) + 1 else old(n.pos))
      && (forall n {:trigger n.lo} | n in order && n in old(order) ::
        n.lo == if old(n.lo > p.pos) then old(n.lo) + 1 else old(n.lo))
      && (forall n {:trigger n.hi} | n in order && n in old(order) ::
        n.hi == if old(n.hi > p.pos) then old(n.hi) + 1 else old(n.hi))
    }

    twostate lemma HungOrder(node: Node)
      requires old(Shape()) && node !in old(order) && node != nil && node.parent != null && Hung(node)
      ensures forall n {:trigger n in order} :: n in order <==> n in old(order) || n == node
      ensures forall i | 0 <= i < |order| :: order[i].pos == i
      ensures |order| == old(|order|) + 1 && nil !in order
    {
      var k := node.pos;
      assert order[k] == node;
      forall n | n in old(order) ensures n in order {
        assert old(order[n.pos] == n);
        assert n == order[if old(n.pos) < k then old(n.pos) else old(n.pos) + 1];
      }
    }

    twostate lemma HungDownLeft(node: Node)
      requires old(Shape()) && node !in old(order) && node != nil && node.parent != null && Hung(node)
      ensures forall n | n in order :: DownLeft(n)
    {
      HungOrder(node);
      var p: Node := node.parent;
      assert p != nil ==> old(Link(p));
      forall n | n in order ensures DownLeft(n) {
        if n != node { assert old(Link(n)); }
      }
    }

    twostate lemma HungDownRight(node: Node)
      requires old(Shape()) && node !in old(order) && node != nil && node.parent != null && Hung(node)
      ensures forall n | n in order :: DownRight(n)
    {
      HungOrder(node);
      var p: Node := node.parent;
      assert p != nil ==> old(Link(p));
      forall n | n in order ensures DownRight(n) {
        if n != node { assert old(Link(n)); }
      }
    }

    twostate lemma HungUp(node: Node)
      requires old(Shape()) && node !in old(order) && node != nil && node.parent != null && Hung(node)
      ensures forall n | n in order :: Up(n)
    {
      HungOrder(node);
      var p: Node := node.parent;
      assert p != nil ==> old(Link(p));
      forall n | n in order ensures Up(n) {
        if n != node { assert old(Link(n)); }
      }
    }

    twostate lemma HungBounds(node: Node)
      requires old(Shape()) && node !in old(order) && node != nil && node.parent != null && Hung(node)
      ensures forall n | n in order :: 0 <= n.lo && n.hi <= |order|
    {
      HungOrder(node);
      forall n | n in order ensures 0 <= n.lo && n.hi <= |order| {
        if n != node { assert old(Link(n)); }
      }
    }

    twostate lemma HungShape(node: Node)
      requires old(Shape()) && node !in old(order) && node != nil && node.parent != null && Hung(node)
      ensures Shape() && node in order
    {
      HungDownLeft(node);
      HungDownRight(node);
      HungUp(node);
      HungBounds(node);
      HungOrder(node);
    }

    twostate lemma HungColors(node: Node)
      requires old(Shape() && Nil() && Levels() && RedEdges(nil) && root.color == Black)
      requires node !in old(order) && node != nil && node.parent != null && Hung(node)
      requires Shape() && Nil() && node.color == Red && node.bh == 0
      requires forall n | n in old(order) :: n.color == old(n.color) && n.bh == old(n.bh)
      ensures Inserting(node)
    {
      HungOrder(node);
      forall n | n in order ensures Level(n) {
        if n != node { assert old(Link(n) && Level(n)); }
      }
      forall n | n in order ensures RedEdge(n, node) {
        if n != node { assert old(Link(n) && RedEdge(n, nil)); }
      }
    }

    twostate lemma HungResult(node: Node)
      requires old(Shape() && Nil() && Levels() && RedEdges(nil) && root.color == Black)
      requires node !in old(order) && node != nil && node.parent != null && Hung(node) == true
      requires Nil() && node.color == Red && node.bh == 0
      requires forall n | n in old(order) :: n.color == old(n.color) && n.bh == old(n.bh)
      ensures Inserting(node) == true
      ensures forall n {:trigger n in order} :: n in order <==> n in old(order) || n == node
      ensures |order| == old(|order|) + 1
    {
      HungShape(node);
      HungColors(node);
      HungOrder(node);
    }

    /** Makes room in the numbering for a leaf below `p` at place `k`. */
    ghost method OpenGap(node: Node, p: Node, k: int)
      requires node !in order && node != nil && 0 <= k <= |order| && forall i | 0 <= i < |order| :: order[i].pos == i
      modifies this`order, order`lo, order`hi, order`pos, node`lo, node`hi, node`pos, node`bh
      ensures order == old(order)[..k] + [node] + old(order)[k..]
      ensures node.pos == k && node.lo == k && node.hi == k + 1 && node.bh == 0
      ensures forall n {:trigger n.pos} | n in old(order) ::
        n.pos == if old(n.pos) >= k then old(n.pos) + 1 else old(n.pos)
      ensures forall n {:trigger n.lo} | n in old(order) ::
        n.lo == if old(n.lo > p.pos) then old(n.lo) + 1 else old(n.lo)
      ensures forall n {:trigger n.hi} | n in old(order) ::
        n.hi == if old(n.hi > p.pos) then old(n.hi) + 1 else old(n.hi)
    {
      var at := p.pos;
      forall n | n in order {
        n.lo := if n.lo > at then n.lo + 1 else n.lo;
      }
      forall n | n in order {
        n.hi := if n.hi > at then n.hi + 1 else n.hi;
      }
      forall n | n in order {
        n.pos := if n.pos >= k then n.pos + 1 else n.pos;
      }
      node.pos, node.lo, node.hi, node.bh := k, k, k + 1, 0;
      order := order[..k] + [node] + order[k..];
    }

    /** Links the leaf to its parent. */
    method LinkLeaf(node: Node, parent: Node, request: nat)
      requires Shape() && node !in order && node != nil
      requires parent == nil ==> order == []
      requires parent != nil ==> In(parent) && parent in order && parent.key != request
      requires parent != nil ==> if parent.key > request then parent.left == nil else parent.right == nil
      modifies this`root, order`left, order`right, node`left, node`right, node`parent
      ensures node.left == nil && node.right == nil && node.parent == parent
      ensures root == if parent == nil then node else old(root)
      ensures forall n {:trigger n.left} | n in order ::
        n.left == if n == parent && parent.key > request then node else old(n.left)
      ensures forall n {:trigger n.right} | n in order ::
        n.right == if n == parent && parent.key < request then node else old(n.right)
      ensures nil.left == nil && nil.right == nil
    {
      node.left := nil;
      node.parent := parent;
      node.right := nil;
      if parent == nil {
        root := node;
      } else {
        if parent.key > request {
          parent.left := node;
        } else {
          parent.right := node;
        }
      }
    }

    method Hang(node: Node, parent: Node, request: nat)
      requires Shape() && node !in order && node != nil
      requires parent == nil ==> order == []
      requires parent != nil ==> In(parent) && parent in order && parent.key != request
      requires parent != nil ==> if parent.key > request then parent.left == nil else parent.right == nil
      modifies this`root, this`order, order`left, order`right, order`lo, order`hi, order`pos
      modifies node`left, node`right, node`parent, node`lo, node`hi, node`pos, node`bh
      ensures node.parent == parent && Hung(node) == true && node.bh == 0
      ensures node.pos == if parent == nil then 0
        else if parent.key > request then old(parent.pos) else old(parent.pos) + 1
    {
      assert parent != nil ==> Link(parent);
      ghost var k := if parent == nil then 0 else if parent.key > request then parent.pos else parent.pos + 1;
      LinkLeaf(node, parent, request);
      OpenGap(node, parent, k);
    }

    // ---------- the map ----------

    ghost predicate EntriesOf(nodes: seq<Node>)
      reads this`keys, this`stacks, nodes`key, nodes`data
    {
      && |nodes| == |keys| == |stacks|
      && (forall i {:trigger nodes[i]} | 0 <= i < |nodes| :: nodes[i].key == keys[i])
      && (forall i {:trigger nodes[i]} | 0 <= i < |nodes| :: nodes[i].data == stacks[i])
    }

    ghost predicate Listing()
      reads this`keys, this`stacks, this`contents
    {
      && Increasing(keys) && Listed(keys, stacks, contents)
      && forall i, j :: 0 <= i < j < |stacks| ==> stacks[i] != stacks[j]
    }

    ghost predicate Entries()
      reads this`order, this`keys, this`stacks, this`contents, order`key, order`data
    {
      EntriesOf(order) && Listing()
    }

    ghost predicate MaxOk()
      reads this`order, this`max
    {
      max == if order == [] then nil else order[|order| - 1]
    }

    /** A red-black tree. Some contracts below compare it, and other large predicates, with
        `true`: the verifier then takes them as a whole instead of clause by clause. */
    ghost predicate Balanced()
      reads this`order, this`root, nil`left, nil`right, nil`color, nil`bh, nil`key
      reads order`left, order`right, order`parent, Around()`lo, Around()`pos, Around()`hi
      reads Around()`left, Around()`right, Around()`parent, Around()`color, Around()`bh
    {
      Shape() && Nil() && Levels() && RedEdges(nil) && root.color == Black
    }

    /** A red-black search tree with its maximum cached. */
    ghost predicate Sound()
      reads this`order, this`root, nil`left, nil`right, nil`color, nil`bh, nil`key
      reads order`left, order`right, order`parent, Around()`lo, Around()`pos, Around()`hi
      reads Around()`left, Around()`right, Around()`parent, Around()`color, Around()`bh
      reads this`max, this`keys, this`stacks, this`contents, order`key, order`data
    {
      Balanced() && Entries() && MaxOk()
    }

    /** The descent shared by find and erase. It visits at most twice as many nodes as the
        black height of the tree. */
    method Search(request: nat) returns (node: Node, ghost visited: nat)
      requires Sound()
      ensures node == nil ==> forall i :: 0 <= i < |order| ==> order[i].key != request
      ensures node != nil ==> node in order && node.key == request
      ensures visited <= 2 * root.bh
    {
      node := root;
      visited := 0;
      ghost var lo, hi := 0, |order|;
      assert node != nil ==> Link(node) && Level(node) && RedEdge(node, nil);
      while node != nil
        invariant 0 <= lo <= hi <= |order|
        invariant forall i :: 0 <= i < lo ==> order[i].key < request
        invariant forall i :: hi <= i < |order| ==> order[i].key > request
        invariant node == nil ==> lo == hi && node.bh == 0
        invariant node != nil ==> node in order && node.lo == lo && node.hi == hi
        invariant node != nil ==> Link(node) && Level(node) && RedEdge(node, nil)
        invariant visited + 2 * node.bh + (if node.color == Red then 1 else 0) <= 2 * root.bh
        decreases hi - lo
      {
        visited := visited + 1;
        if node.key == request {
          return;
        } else if node.key > request {
          hi := node.pos;
          node := node.left;
        } else {
          lo := node.pos + 1;
          node := node.right;
        }
        assert node != nil ==> Link(node) && Level(node) && RedEdge(node, nil);
      }
    }

    /** The maximum, which has no right child, is about to go: the next lower node follows it. */
    method LowerMax()
      requires Sound() && max in order
      modifies this`max
      ensures max == if |order| == 1 then nil else order[|order| - 2]
    {
      hide Around, Entries;
      assert Link(max);
      ghost var node := max;
      if max.left == nil {
        assert max != root ==> Link(max.parent);
        max := max.parent;
      } else {
        max := max.left;
        assert Link(max);
        while max.right != nil
          invariant max in order && Link(max) && max.hi == node.pos
          decreases max.hi - max.lo
        {
          max := max.right;
          assert Link(max);
        }
      }
    }

    method Successor(node: Node) returns (next: Node)
      requires Sound() && node in order && In(node) && node.right != nil
      ensures next in order && In(next) && next.left == nil && next.pos == node.pos + 1
    {
      assert Link(node);
      next := node.right;
      assert Link(next);
      while next.left != nil
        invariant next in order && Link(next) && next.lo == node.pos + 1
        decreases next.hi - next.lo
      {
        next := next.left;
        assert Link(next);
      }
    }

    /** Chooses the node to be taken out: `node` itself, or its successor when `node` has
        two children. When the maximum itself goes, the next lower node becomes the maximum. */
    method ChooseErasure(node: Node) returns (erasure: Node)
      requires Sound() && node in order && In(node)
      modifies this`max
      ensures erasure in order && In(erasure) && (erasure.left == nil || erasure.right == nil)
      ensures erasure == node || erasure.pos == node.pos + 1
      ensures max == if node != old(max) || erasure != node then old(max)
        else if |order| == 1 then nil else order[|order| - 2]
    {
      assert Link(node);
      if node.left == nil || node.right == nil {
        erasure := node;
        if node == max {
          LowerMax();
        }
      } else {
        erasure := Successor(node);
      }
    }

    /** When `erasure` stands in for `node`, moves its contents there. Either way the entry
        that was at place `at` is gone. */
    method MoveContents(node: Node, erasure: Node, ghost was: seq<Node>, ghost at: int, ghost k: int)
      returns (stackLink: StackLink)
      requires 0 <= at <= k < |was| && was[at] == node && was[k] == erasure && EntriesOf(was) && k <= at + 1
      requires forall i, j :: 0 <= i < j < |was| ==> was[i] != was[j]
      requires |order| == |was| - 1
      requires forall j {:trigger order[j]} | 0 <= j < |order| :: order[j] == was[if j < k then j else j + 1]
      modifies this`max, node`key, node`data
      ensures stackLink == stacks[at]
      ensures forall j {:trigger order[j]} | 0 <= j < |order| ::
        var i := if j < at then j else j + 1; order[j].key == keys[i] && order[j].data == stacks[i]
      ensures max == if erasure != node && erasure == old(max) then node else old(max)
    {
      if erasure != node {
        stackLink := node.data;
        node.data := erasure.data;
        node.key := erasure.key;
        if erasure == max {
          max := node;
        }
      } else {
        stackLink := erasure.data;
      }
    }

    ghost method DropEntry(at: int)
      requires 0 <= at < |keys| && |order| == |keys| - 1 && |stacks| == |keys| && Listing()
      requires forall j {:trigger order[j]} | 0 <= j < |order| ::
        var i := if j < at then j else j + 1; order[j].key == keys[i] && order[j].data == stacks[i]
      modifies this`keys, this`stacks, this`contents
      ensures Entries() && contents == old(contents) - {old(keys[at])}
      ensures stacks == Without(old(stacks), at)
    {
      ListedWithout(keys, stacks, contents, at);
      contents := contents - {keys[at]};
      keys := Without(keys, at);
      stacks := Without(stacks, at);
    }

    method MoveEntry(node: Node, erasure: Node, ghost was: seq<Node>, ghost at: int, ghost k: int)
      returns (stackLink: StackLink)
      requires 0 <= at <= k < |was| && was[at] == node && was[k] == erasure && k <= at + 1
      requires EntriesOf(was) && Listing()
      requires forall i, j :: 0 <= i < j < |was| ==> was[i] != was[j]
      requires |order| == |was| - 1
      requires forall j {:trigger order[j]} | 0 <= j < |order| :: order[j] == was[if j < k then j else j + 1]
      modifies this`max, this`keys, this`stacks, this`contents, node`key, node`data
      ensures Entries() == true && contents == old(contents) - {old(keys[at])}
      ensures stackLink == old(stacks)[at] && stacks == Without(old(stacks), at)
      ensures max == if erasure != node && erasure == old(max) then node else old(max)
    {
      stackLink := MoveContents(node, erasure, was, at, k);
      DropEntry(at);
    }

    /** Unlinks `erasure` and drops the entry of `node`. */
    method SpliceEntry(node: Node, erasure: Node) returns (stackLink: StackLink)
      requires Shape() == true && Entries() == true && node in order && In(node)
      requires erasure in order && In(erasure) && (erasure.left == nil || erasure.right == nil)
      requires erasure == node || erasure.pos == node.pos + 1
      modifies this`root, this`max, this`order, this`keys, this`stacks, this`contents, nil`parent
      modifies order`left, order`right, order`parent, order`lo, order`hi, order`pos, node`key, node`data
      ensures Spliced(erasure) == true && old(Heir(erasure)).parent == old(erasure.parent)
      ensures Entries() == true && contents == old(contents) - {old(keys[node.pos])}
      ensures stackLink == old(stacks)[old(node.pos)] && stacks == Without(old(stacks), old(node.pos))
      ensures max == if erasure != node && erasure == old(max) then node else old(max)
    {
      hide Shape, Spliced, Without;
      ghost var was, at, k := order, node.pos, erasure.pos;
      assert forall i, j :: 0 <= i < j < |was| ==> was[i] != was[j];
      Splice(erasure);
      stackLink := MoveEntry(node, erasure, was, at, k);
    }

    /** Takes the entry of `node` out by taking `erasure` out of the tree; the colours are
        not restored yet. */
    method TakeOut(node: Node, erasure: Node) returns (child: Node, stackLink: StackLink)
      requires Balanced() == true && Entries() == true && node in order && In(node)
      requires erasure in order && In(erasure) && (erasure.left == nil || erasure.right == nil)
      requires erasure == node || erasure.pos == node.pos + 1
      modifies this`root, this`max, this`order, this`keys, this`stacks, this`contents, nil`parent
      modifies order`left, order`right, order`parent, order`lo, order`hi, order`pos, node`key, node`data
      ensures erasure.color == Black ==> Erasing(child) == true
      ensures erasure.color == Red ==> Balanced() == true
      ensures forall n {:trigger n in order} :: n in order <==> n in old(order) && n != erasure
      ensures |order| == old(|order|) - 1
      ensures forall j {:trigger order[j]} | 0 <= j < |order| :: order[j] in old(order)
      ensures |order| > 0 ==>
        order[|order| - 1] == old(order)[if old(erasure.pos) == |order| then |order| - 1 else |order|]
      ensures Entries() == true && contents == old(contents) - {old(keys[node.pos])}
      ensures stackLink == old(stacks)[old(node.pos)] && stacks == Without(old(stacks), old(node.pos))
      ensures max == if erasure != node && erasure == old(max) then node else old(max)
    {
      hide Entries;
      child := if erasure.left != nil then erasure.left else erasure.right;
      stackLink := SpliceEntry(node, erasure);
      SplicedResult(erasure);
    }

    method RestoreColors(erasure: Node, child: Node)
      requires erasure.color == Black ==> Erasing(child) == true
      requires erasure.color == Red ==> Balanced() == true
      requires Entries() == true && MaxOk() == true
      modifies nil`color, this`root, order`left, order`right, order`parent, order`lo, order`hi, order`color, order`bh
      ensures Sound() == true
    {
      if erasure.color == Black {
        EraseFixup(child);
      }
    }

    /** Takes the entry of `node` out, maximum included; the colours are not restored yet. */
    method DetachEntry(node: Node) returns (erasure: Node, child: Node, stackLink: StackLink)
      requires Sound() && node in order && In(node)
      modifies this`root, this`max, this`order, this`keys, this`stacks, this`contents, nil`parent
      modifies order`left, order`right, order`parent, order`lo, order`hi, order`pos, order`key, order`data
      ensures erasure in old(order)
      ensures erasure.color == Black ==> Erasing(child) == true
      ensures erasure.color == Red ==> Balanced() == true
      ensures forall n {:trigger n in order} :: n in order <==> n in old(order) && n != erasure
      ensures |order| == old(|order|) - 1
      ensures forall j {:trigger order[j]} | 0 <= j < |order| :: order[j] in old(order)
      ensures Entries() == true && MaxOk() == true && contents == old(contents) - {old(keys[node.pos])}
      ensures stackLink == old(stacks)[old(node.pos)] && stacks == Without(old(stacks), old(node.pos))
    {
      hide In;
      assert order[node.pos] == node && order[|order| - 1].pos == |order| - 1;
      assert |order| > 1 ==> order[|order| - 2].pos == |order| - 2;
      erasure := ChooseErasure(node);
      child, stackLink := TakeOut(node, erasure);
    }

    /** Erases the entry of `node` from the tree. */
    method EraseNode(node: Node) returns (erasure: Node, stackLink: StackLink)
      requires Sound() && node in order && In(node)
      modifies this`root, this`max, this`order, this`keys, this`stacks, this`contents, nil`parent, nil`color
      modifies order
      ensures Sound() == true
      ensures erasure in old(order)
      ensures forall n {:trigger n in order} :: n in order <==> n in old(order) && n != erasure
      ensures |order| == old(|order|) - 1
      ensures contents == old(contents) - {old(node.key)}
      ensures stackLink == old(stacks)[old(node.pos)] && stacks == Without(old(stacks), old(node.pos))
    {
      hide Balanced;
      assert order[node.pos] == node;
      var child;
      erasure, child, stackLink := DetachEntry(node);
      RestoreColors(erasure, child);
    }

    // ---------- inserting an entry ----------

    /** The place in the listing at which a leaf below `parent` comes to stand. */
    ghost function PlaceBelow(parent: Node, request: nat): int
      reads parent`pos, parent`key
    {
      if parent == nil then 0 else if parent.key > request then parent.pos else parent.pos + 1
    }

    /** A leaf for `request` belongs below `parent`. */
    ghost predicate Fits(parent: Node, request: nat)
      reads this`order, this`keys, parent`pos, parent`key, parent`left, parent`right
    {
      && (parent == nil ==> order == [])
      && (parent != nil ==> In(parent) && parent in order && parent.key != request)
      && (parent != nil ==> if parent.key > request then parent.left == nil else parent.right == nil)
      && 0 <= PlaceBelow(parent, request) <= |keys|
      && (forall i {:trigger keys[i]} | 0 <= i < PlaceBelow(parent, request) :: keys[i] < request)
      && (forall i {:trigger keys[i]} | PlaceBelow(parent, request) <= i < |keys| :: request < keys[i])
    }

    lemma LastHasNoRight(n: Node)
      requires Shape() && n in order && n.pos == |order| - 1
      ensures n.right == nil && In(n)
    {
      assert Link(n);
      assert n.right != nil ==> Link(n.right);
    }

    /** Looks for the request, or for the place where it belongs: below the maximum at once
        when it is larger, else by descending from the root. */
    method FindPlace(request: nat) returns (parent: Node, found: bool)
      requires Sound()
      ensures found ==> parent in order && parent.key == request
      ensures !found ==> Fits(parent, request) == true
    {
      if request > max.key {
        parent, found := max, false;
        if max != nil {
          assert order[|order| - 1].pos == |order| - 1;
          LastHasNoRight(max);
          assert keys[max.pos] == order[max.pos].key;
        }
      } else {
        parent, found := Descend(request);
      }
    }

    method Descend(request: nat) returns (parent: Node, found: bool)
      requires Sound()
      ensures found ==> parent in order && parent.key == request
      ensures !found ==> Fits(parent, request) == true
    {
      hide MaxOk, Nil;
      found := false;
      parent := nil;
      var cur := root;
      ghost var lo, hi := 0, |order|;
      assert cur != nil ==> Link(cur);
      while cur != nil
        invariant 0 <= lo <= hi <= |order|
        invariant forall i {:trigger keys[i]} | 0 <= i < lo :: keys[i] < request
        invariant forall i {:trigger keys[i]} | hi <= i < |order| :: keys[i] > request
        invariant cur == nil ==> lo == hi
        invariant cur != nil ==> cur in order && cur.lo == lo && cur.hi == hi && Link(cur)
        invariant parent == nil ==> cur == root
        invariant parent != nil ==> parent in order && In(parent) && parent.key != request
        invariant parent != nil ==> cur == (if parent.key > request then parent.left else parent.right)
        invariant parent != nil ==> if parent.key > request then hi == parent.pos else lo == parent.pos + 1
        decreases hi - lo
      {
        parent := cur;
        assert order[cur.pos].key == keys[cur.pos];
        if cur.key == request {
          return parent, true;
        } else if cur.key > request {
          hi := cur.pos;
          cur := cur.left;
        } else {
          lo := cur.pos + 1;
          cur := cur.right;
        }
        assert cur != nil ==> Link(cur);
      }
    }

    ghost method AddEntry(node: Node, at: int, request: nat, stackLink: StackLink, was: seq<Node>)
      requires EntriesOf(was) && Listing() && 0 <= at <= |keys|
      requires |order| == |was| + 1 && node.key == request && node.data == stackLink
      requires forall i {:trigger order[i]} | 0 <= i < |order| ::
        order[i] == if i < at then was[i] else if i == at then node else was[i - 1]
      requires forall i {:trigger keys[i]} | 0 <= i < at :: keys[i] < request
      requires forall i {:trigger keys[i]} | at <= i < |keys| :: request < keys[i]
      requires stackLink !in stacks
      modifies this`keys, this`stacks, this`contents
      ensures Entries() && contents == old(contents)[request := stackLink]
      ensures forall l {:trigger l in stacks} :: l in stacks <==> l in old(stacks) || l == stackLink
    {
      hide Increasing;
      ListedWithin(keys, stacks, contents, at, request, stackLink);
      contents := contents[request := stackLink];
      keys := Within(keys, at, request);
      WithinHas(stacks, at, stackLink);
      stacks := Within(stacks, at, stackLink);
    }

    /** Hangs the new node in, red, with its key and its stack. */
    method HangLeaf(node: Node, parent: Node, request: nat, stackLink: StackLink)
      requires Shape() == true && node !in order && node != nil && Fits(parent, request) == true
      modifies this`root, this`order, order`left, order`right, order`lo, order`hi, order`pos, node
      ensures node.parent == parent && Hung(node) == true && node.bh == 0 && node.color == Red
      ensures var at := old(PlaceBelow(parent, request)); forall i {:trigger order[i]} | 0 <= i < |order| ::
        order[i] == if i < at then old(order)[i] else if i == at then node else old(order)[i - 1]
      ensures |order| == old(|order|) + 1
      ensures node.data == stackLink && node.key == request
    {
      hide Shape;
      node.color := Red;
      node.data := stackLink;
      node.key := request;
      Hang(node, parent, request);
    }

    /** Lists the entry and lets the maximum follow. */
    method ListEntry(node: Node, parent: Node, request: nat, stackLink: StackLink, ghost was: seq<Node>, ghost at: int)
      requires EntriesOf(was) && Listing() && 0 <= at <= |keys|
      requires |order| == |was| + 1 && node.key == request && node.data == stackLink
      requires forall i {:trigger order[i]} | 0 <= i < |order| ::
        order[i] == if i < at then was[i] else if i == at then node else was[i - 1]
      requires forall i {:trigger keys[i]} | 0 <= i < at :: keys[i] < request
      requires forall i {:trigger keys[i]} | at <= i < |keys| :: request < keys[i]
      requires stackLink !in stacks
      requires if parent == nil then was == [] else parent.key != request
      requires was != [] ==> max == was[|was| - 1]
      requires parent != nil && parent.key > request ==> at < |was|
      requires parent != nil && parent.key < request ==> (parent == max <==> at == |was|)
      modifies this`max, this`keys, this`stacks, this`contents
      ensures Entries() == true && MaxOk() == true && contents == old(contents)[request := stackLink]
      ensures forall l {:trigger l in stacks} :: l in stacks <==> l in old(stacks) || l == stackLink
    {
      AddEntry(node, at, request, stackLink, was);
      if parent == nil {
        max := node;
      } else if parent.key < request && parent == max {
        max := node;
      }
    }

    method HangListed(node: Node, parent: Node, request: nat, stackLink: StackLink)
      requires Sound() == true && node !in order && node != nil && Fits(parent, request) == true && stackLink !in stacks
      modifies this`root, this`max, this`order, this`keys, this`stacks, this`contents
      modifies order`left, order`right, order`lo, order`hi, order`pos, node
      ensures node.parent == parent && Hung(node) == true && node.bh == 0 && node.color == Red
      ensures Entries() == true && MaxOk() == true
      ensures contents == old(contents)[request := stackLink]
      ensures forall l {:trigger l in stacks} :: l in stacks <==> l in old(stacks) || l == stackLink
    {
      hide Hung, EntriesOf;
      ghost var was, at := order, PlaceBelow(parent, request);
      assert was != [] ==> was[|was| - 1].pos == |was| - 1;
      HangLeaf(node, parent, request, stackLink);
      ListEntry(node, parent, request, stackLink, was, at);
    }

    /** Hangs the new node in and lists its entry; the colours are not restored yet. */
    method HangEntry(node: Node, parent: Node, request: nat, stackLink: StackLink)
      requires Sound() == true && node !in order && node != nil && Fits(parent, request) == true && stackLink !in stacks
      modifies this`root, this`max, this`order, this`keys, this`stacks, this`contents
      modifies order`left, order`right, order`lo, order`hi, order`pos, node
      ensures Inserting(node) == true && Entries() == true && MaxOk() == true
      ensures forall n {:trigger n in order} :: n in order <==> n in old(order) || n == node
      ensures forall j {:trigger order[j]} | 0 <= j < |order| :: order[j] in old(order) || order[j] == node
      ensures |order| == old(|order|) + 1
      ensures contents == old(contents)[request := stackLink]
      ensures forall l {:trigger l in stacks} :: l in stacks <==> l in old(stacks) || l == stackLink
    {
      hide Fits, Inserting;
      HangListed(node, parent, request, stackLink);
      HungResult(node);
    }

    /** Inserts an entry at the place found for it. */
    method InsertNode(node: Node, parent: Node, request: nat, stackLink: StackLink)
      requires Sound() == true && node !in order && node != nil && Fits(parent, request) == true && stackLink !in stacks
      modifies this`root, this`max, this`order, this`keys, this`stacks, this`contents, order, node
      ensures Sound() == true
      ensures forall n {:trigger n in order} :: n in order <==> n in old(order) || n == node
      ensures |order| == old(|order|) + 1
      ensures contents == old(contents)[request := stackLink]
      ensures forall l {:trigger l in stacks} :: l in stacks <==> l in old(stacks) || l == stackLink
    {
      hide *;
      HangEntry(node, parent, request, stackLink);
      RestoreAfterInsert(node);
    }

    method RestoreAfterInsert(node: Node)
      requires Inserting(node) == true && Entries() == true && MaxOk() == true
      modifies this`root, order`left, order`right, order`parent, order`lo, order`hi, order`color, order`bh
      ensures Sound() == true
    {
      InsertFixup(node);
    }

    // ---------- storage ----------

    /** The chunks form one list from `store` to `storeTail`. */
    ghost predicate ChunkList()
      reads this`chunks, this`storeTail, this`allNodes, this`allStacks, chunks`next
    {
      && |chunks| > 0 && chunks[0] == store && storeTail == chunks[|chunks| - 1] && storeTail.next == null
      && Distinct(chunks) && (forall i {:trigger chunks[i].next} | 0 <= i < |chunks| - 1 ::
        chunks[i].next == chunks[i + 1])
      && allNodes == NodesIn(chunks) && allStacks == StacksIn(chunks)
    }

    /** The chunks hold exactly the used nodes and stacks and the free ones, and the two
        free lists are equally long. */
    ghost predicate FreeLists(used: set<Node>, usedStacks: set<StackLink>)
      reads this`freeNodes, this`freeStacks, this`freeNodeList, this`freeStackList, this`allNodes, this`allStacks
      reads freeNodeList`parent, freeStackList`next
    {
      && NodeChain(freeNodes, freeNodeList) && StackChain(freeStacks, freeStackList)
      && |freeNodeList| == |freeStackList| && Distinct(freeNodeList) && Distinct(freeStackList)
      && (forall n | n in freeNodeList :: n !in used)
      && (forall l | l in freeStackList :: l !in usedStacks)
      && allNodes == used + Elems(freeNodeList)
      && allStacks == usedStacks + Elems(freeStackList)
      && nil !in allNodes
    }

    /** The stacks in storage are sound and separate, and the free ones are empty. */
    ghost predicate StacksOk()
      reads this`allStacks, this`freeStackList, StacksOf(allStacks), ChunksOf(StacksOf(allStacks))
      reads set l | l in freeStackList :: l.stack
    {
      && Apart(allStacks)
      && (forall l | l in freeStackList :: l.stack.size == 0)
    }

    /** Takes a node and a stack from the free lists. */
    method TakeFree(ghost used: set<Node>, ghost usedStacks: set<StackLink>) returns (node: Node, stackLink: StackLink)
      requires freeNodes != null && freeStacks != null && FreeLists(used, usedStacks)
      modifies this`freeNodes, this`freeStacks, this`freeNodeList, this`freeStackList
      ensures node == old(freeNodeList)[0] && stackLink == old(freeStackList)[0]
      ensures freeNodeList == old(freeNodeList)[1..] && freeStackList == old(freeStackList)[1..]
      ensures FreeLists(used + {node}, usedStacks + {stackLink})
    {
      node := freeNodes;
      stackLink := freeStacks;
      freeNodes := freeNodes.parent;
      freeStacks := freeStacks.next;
      freeNodeList := freeNodeList[1..];
      freeStackList := freeStackList[1..];
    }

    /** Puts a new chunk at the end of the chunk list. */
    method AppendChunk(chunk: MapChunk)
      requires ChunkList() && chunk !in chunks && chunk.next == null
      modifies this`chunks, this`storeTail, this`allNodes, this`allStacks, storeTail`next
      ensures ChunkList() == true && chunks == old(chunks) + [chunk]
      ensures allNodes == old(allNodes) + Elems(chunk.nodes)
      ensures allStacks == old(allStacks) + Elems(chunk.stacks)
    {
      storeTail.next := chunk;
      storeTail := chunk;
      OneMoreChunk(chunks, chunk);
      chunks := chunks + [chunk];
      allNodes := NodesIn(chunks);
      allStacks := StacksIn(chunks);
    }

    /** Makes a chunk that is all free the free storage, and the tail of the chunk list. */
    method AddChunk(chunk: MapChunk, ghost used: set<Node>, ghost usedStacks: set<StackLink>)
      requires freeNodes == null && freeStacks == null && FreeLists(used, usedStacks) == true && ChunkList() == true
      requires AllFree(chunk) == true && chunk !in chunks
      requires forall n | n in chunk.nodes :: n !in used && n != nil
      requires forall l | l in chunk.stacks :: l !in usedStacks
      modifies this`freeNodes, this`freeStacks, this`freeNodeList, this`freeStackList
      modifies this`chunks, this`storeTail, this`allNodes, this`allStacks, storeTail`next
      ensures FreeLists(used, usedStacks) == true && ChunkList() == true && freeNodes != null && freeStacks != null
      ensures freeNodeList == chunk.nodes && freeStackList == chunk.stacks
      ensures allStacks == old(allStacks) + Elems(chunk.stacks)
    {
      hide ChunkList;
      freeNodes := chunk.nodes[0];
      freeStacks := chunk.stacks[0];
      freeNodeList, freeStackList := chunk.nodes, chunk.stacks;
      AppendChunk(chunk);
    }

    /** Allocates more storage when the free lists have run out. */
    method Grow(ghost used: set<Node>, ghost usedStacks: set<StackLink>)
      requires freeNodes == null && freeStacks == null
      requires FreeLists(used, usedStacks) == true && StacksOk() == true && ChunkList() == true
      requires nil !in used
      modifies this`freeNodes, this`freeStacks, this`freeNodeList, this`freeStackList
      modifies this`chunks, this`storeTail, this`allNodes, this`allStacks, storeTail`next
      ensures FreeLists(used, usedStacks) == true && StacksOk() == true && ChunkList() == true
      ensures freeNodes != null && freeStacks != null
      ensures fresh(freeNodeList) && fresh(freeStackList)
    {
      hide FreeLists, ChunkList, NodeChain, Distinct;
      var chunk := MakeChunk();
      label Made:
      AddChunk(chunk, used, usedStacks);
      ApartStays(old(allStacks));
      ApartStays@Made(Elems(chunk.stacks));
      JoinedApart(old(allStacks), Elems(chunk.stacks));
    }

    ghost predicate Valid()
      reads this, nil, order, Around(), freeNodeList, freeStackList, chunks
      reads StacksOf(allStacks), ChunksOf(StacksOf(allStacks)), set l | l in freeStackList :: l.stack
    {
      Sound() && FreeLists(Elems(order), Elems(stacks)) && StacksOk() && ChunkList()
    }

    /** Puts a node and a cleared stack onto the free lists. */
    method GiveBack(node: Node, stackLink: StackLink, ghost used: set<Node>, ghost usedStacks: set<StackLink>)
      requires FreeLists(used + {node}, usedStacks + {stackLink}) == true && node !in used && stackLink !in usedStacks
      modifies this`freeNodes, this`freeStacks, this`freeNodeList, this`freeStackList, node`parent, stackLink`next
      ensures FreeLists(used, usedStacks) == true
      ensures freeNodeList == [node] + old(freeNodeList) && freeStackList == [stackLink] + old(freeStackList)
    {
      node.parent := freeNodes;
      freeNodes := node;
      stackLink.next := freeStacks;
      freeStacks := stackLink;
      freeNodeList := [node] + freeNodeList;
      freeStackList := [stackLink] + freeStackList;
    }

    lemma HoldsAt(node: Node)
      requires Sound() && node in order
      ensures In(node) && node.key in contents && contents[node.key] == node.data
      ensures keys[node.pos] == node.key && stacks[node.pos] == node.data
    {
      assert Link(node);
      assert order[node.pos] == node;
      assert keys[node.pos] in contents;
    }

    lemma PresentInOrder(request: nat)
      requires Sound() && request in contents
      ensures exists i :: 0 <= i < |order| && order[i].key == request
    {
      assert Occurs(keys, request);
      var i :| 0 <= i < |keys| && keys[i] == request;
      assert order[i].key == request;
    }

    // ---------- the tree read back ----------

    /** What the pointers below `n` spell out. */
    ghost function Read(n: Node): Tree
      requires Shape() && (n == nil || n in order)
      reads this`order, this`root, nil`left, nil`right, order`left, order`right, order`parent
      reads Around()`lo, Around()`pos, Around()`hi, Around()`left, Around()`right, Around()`parent
      reads order`color, order`key
      decreases if n == nil then 0 else 1 + n.hi - n.lo
    {
      if n == nil then Leaf else
        assert Link(n);
        assert (n.left != nil ==> Link(n.left)) && (n.right != nil ==> Link(n.right));
        Branch(n.color, Read(n.left), n.key, Read(n.right))
    }

    lemma {:induction false} ReadKeys(n: Node)
      requires Shape() && EntriesOf(order) == true && |keys| == |order| && n in order
      ensures Link(n) && Keys(Read(n)) == keys[n.lo..n.hi]
      decreases n.hi - n.lo
    {
      assert Link(n);
      KeyAt(n);
      if n.left != nil {
        assert Link(n.left);
        ReadKeys(n.left);
      }
      if n.right != nil {
        assert Link(n.right);
        ReadKeys(n.right);
      }
      ThreeParts(keys, n.lo, n.pos, n.hi);
    }

    lemma KeyAt(n: Node)
      requires EntriesOf(order) && n in order && In(n)
      ensures n.key == keys[n.pos]
    {
      assert order[n.pos] == n;
    }

    lemma {:induction false} ReadColors(n: Node)
      requires Balanced() && n in order
      ensures NoRedRed(Read(n)) && Even(Read(n)) && BlackHeight(Read(n)) == n.bh && ColorOf(Read(n)) == n.color
      decreases n.hi - n.lo
    {
      assert Link(n) && Level(n) && RedEdge(n, nil);
      if n.left != nil {
        assert Link(n.left);
        ReadColors(n.left);
      }
      if n.right != nil {
        assert Link(n.right);
        ReadColors(n.right);
      }
    }

    /** The pointers spell out a red-black search tree whose keys are those of the map. */
    lemma ReadsBack()
      requires Valid()
      ensures RedBlack(Read(root)) && Increasing(Keys(Read(root)))
      ensures forall k :: k in contents <==> k in Keys(Read(root))
    {
      if root != nil {
        ReadKeys(root);
        ReadColors(root);
        assert keys[root.lo..root.hi] == keys;
      } else {
        assert keys == [];
      }
      forall k ensures k in contents <==> k in keys {
        assert k in contents ==> Occurs(keys, k);
      }
    }

    /** The black height of the tree is at most log2(n + 1). */
    lemma LowTree()
      requires Sound()
      ensures root.bh >= 0 && Pow2(root.bh) <= |contents| + 1
    {
      ListedCount(keys, stacks, contents);
      if root != nil {
        ReadKeys(root);
        ReadColors(root);
        BigEnough(Read(root));
      }
    }

    /** The stack of a request, or null. The search visits at most 2 * log2(n + 1) nodes. */
    method Find(request: nat) returns (stackLink: StackLink?, ghost visited: nat)
      requires Valid() == true
      ensures Valid() == true && unchanged(`contents)
      ensures stackLink == if request in contents then contents[request] else null
      ensures Pow2((visited + 1) / 2) <= |contents| + 1
    {
      assert Valid();
      var node;
      node, visited := Search(request);
      LowTree();
      Pow2Grows((visited + 1) / 2, root.bh);
      if node == nil {
        if request in contents { PresentInOrder(request); }
        return null, visited;
      }
      HoldsAt(node);
      return node.data, visited;
    }

    lemma ElemsWithout(s: seq<StackLink>, at: nat)
      requires at < |s| && forall i, j :: 0 <= i < j < |s| ==> s[i] != s[j]
      ensures Elems(Without(s, at)) + {s[at]} == Elems(s) && s[at] !in Without(s, at)
    {
      assert s == s[..at] + [s[at]] + s[at + 1..];
    }

    /** Clearing or growing one stack leaves all of them sound and separate. */
    twostate lemma TouchedApart(stackLink: StackLink)
      requires old(Apart(allStacks)) && stackLink in old(allStacks) && allStacks == old(allStacks)
      requires stackLink.stack.Valid() && old(stackLink.stack.chunks) <= stackLink.stack.chunks
      requires forall i :: old(|stackLink.stack.chunks|) <= i < |stackLink.stack.chunks| ==>
        fresh(stackLink.stack.chunks[i]) && fresh(stackLink.stack.chunks[i].frames)
      requires forall l | l in allStacks && l != stackLink :: unchanged(l.stack)
      requires forall l, c | l in allStacks && l != stackLink && c in l.stack.chunks :: unchanged(c)
      ensures Apart(allStacks) == true
    {
      forall l | l in allStacks ensures Sturdy(l, allStacks) {
        assert old(Sturdy(l, allStacks));
        assert l.stack in StacksOf(allStacks);
        if l != stackLink {
          assert old(Separate(l.stack, stackLink.stack));
          forall i | 0 <= i < |l.stack.chunks| ensures l.stack.chunks[i].next == old(l.stack.chunks[i].next) {
            assert l.stack.chunks[i] in l.stack.chunks;
          }
        }
      }
      forall k, l | k in allStacks && l in allStacks && k != l ensures Separate(k.stack, l.stack) {
        assert old(Separate(k.stack, l.stack));
      }
    }

    /** Returns the node and the stack of an erased entry to storage, the stack cleared. */
    method Recycle(erasure: Node, stackLink: StackLink)
      requires FreeLists(Elems(order) + {erasure}, Elems(stacks) + {stackLink}) == true
      requires erasure !in order && stackLink !in stacks && StacksOk() == true
      modifies this`freeNodes, this`freeStacks, this`freeNodeList, this`freeStackList, erasure`parent,
        stackLink`next, stackLink.stack
      ensures FreeLists(Elems(order), Elems(stacks)) == true && StacksOk() == true
      ensures stackLink.stack.chunks == old(stackLink.stack.chunks)
    {
      assert stackLink in allStacks && Sturdy(stackLink, allStacks);
      stackLink.stack.Clear();
      GiveBack(erasure, stackLink, Elems(order), Elems(stacks));
      TouchedApart(stackLink);
    }

    /** The neighbours of the tree's nodes are in the tree, or nil. */
    lemma AroundTree()
      requires Sound()
      ensures forall n {:trigger n in Around()} | n in Around() && n != null :: n in order || n == nil
    {
      hide Entries;
      forall n | n in Around() && n != null ensures n in order || n == nil {
        assert forall m | m in order :: Link(m);
      }
    }

    /** Storage takes the node and the stack back without touching the tree. */
    method RecycleApart(erasure: Node, stackLink: StackLink)
      requires FreeLists(Elems(order) + {erasure}, Elems(stacks) + {stackLink}) == true
      requires erasure !in order && erasure != nil && stackLink !in stacks && StacksOk() == true
      requires Sound() == true && ChunkList() == true
      modifies this`freeNodes, this`freeStacks, this`freeNodeList, this`freeStackList, erasure`parent,
        stackLink`next, stackLink.stack
      ensures Sound() == true && ChunkList() == true
      ensures FreeLists(Elems(order), Elems(stacks)) == true && StacksOk() == true
    {
      hide *;
      AroundTree();
      Recycle(erasure, stackLink);
    }

    twostate lemma FreeListsStay()
      requires old(FreeLists(Elems(order), Elems(stacks)))
      requires freeNodes == old(freeNodes) && freeStacks == old(freeStacks)
      requires freeNodeList == old(freeNodeList) && freeStackList == old(freeStackList)
      requires allNodes == old(allNodes) && allStacks == old(allStacks)
      requires forall n | n in freeNodeList :: n.parent == old(n.parent)
      requires forall l | l in freeStackList :: l.next == old(l.next)
      ensures FreeLists(old(Elems(order)), old(Elems(stacks))) == true
    {
      forall i | 0 <= i < |freeNodeList| ensures freeNodeList[i].parent == old(freeNodeList[i].parent) {
        assert freeNodeList[i] in freeNodeList;
      }
      forall i | 0 <= i < |freeStackList| ensures freeStackList[i].next == old(freeStackList[i].next) {
        assert freeStackList[i] in freeStackList;
      }
    }

    lemma FreeAreUnused()
      requires FreeLists(Elems(order), Elems(stacks))
      ensures forall n | n in freeNodeList :: n !in order && n != nil
    {
      forall n | n in freeNodeList ensures n !in order && n != nil {
        assert n in Elems(freeNodeList);
        assert n !in Elems(order);
      }
    }

    twostate lemma StacksStay()
      requires old(StacksOk())
      requires allStacks == old(allStacks) && forall l | l in freeStackList :: l in old(freeStackList)
      requires forall l | l in allStacks + Elems(freeStackList) :: unchanged(l.stack)
      requires forall l, c | l in allStacks && c in l.stack.chunks :: unchanged(c)
      ensures StacksOk() == true
    {
      ApartStays(allStacks);
      forall l | l in freeStackList ensures l.stack.size == 0 {
        assert l in Elems(freeStackList);
      }
    }

    /** Takes the entry of `node` out of the tree and leaves storage as it was. */
    method EraseInUse(node: Node) returns (erasure: Node, stackLink: StackLink)
      requires Sound() == true && node in order && FreeLists(Elems(order), Elems(stacks)) == true
      modifies this`root, this`max, this`order, this`keys, this`stacks, this`contents, nil`parent, nil`color
      modifies order
      ensures Sound() == true && contents == old(contents) - {old(node.key)}
      ensures old(node.key in contents) && stackLink == old(contents[node.key])
      ensures FreeLists(Elems(order) + {erasure}, Elems(stacks) + {stackLink}) == true
      ensures erasure in old(order) && erasure != nil && erasure !in order && stackLink in old(stacks)
      ensures stackLink !in stacks
      ensures forall n | n in order :: n in old(order)
    {
      HoldsAt(node);
      ElemsWithout(stacks, node.pos);
      FreeAreUnused();
      erasure, stackLink := EraseNode(node);
      assert Elems(order) + {erasure} == old(Elems(order));
      FreeListsStay();
    }

    method EraseUntouchedStacks(node: Node) returns (erasure: Node, stackLink: StackLink)
      requires Sound() == true && node in order && FreeLists(Elems(order), Elems(stacks)) == true
      requires StacksOk() == true && ChunkList() == true
      modifies this`root, this`max, this`order, this`keys, this`stacks, this`contents, nil`parent, nil`color
      modifies order
      ensures Sound() == true && contents == old(contents) - {old(node.key)}
      ensures old(node.key in contents) && stackLink == old(contents[node.key])
      ensures FreeLists(Elems(order) + {erasure}, Elems(stacks) + {stackLink}) == true
      ensures erasure in old(order) && erasure != nil && erasure !in order && stackLink in old(stacks)
      ensures stackLink !in stacks
      ensures unchanged(`allStacks) && forall n | n in order :: n in old(order)
      ensures StacksOk() == true && ChunkList() == true
    {
      hide Sound;
      erasure, stackLink := EraseInUse(node);
      StacksStay();
    }

    /** The node of a request, or nil. */
    method Locate(request: nat) returns (node: Node)
      requires Valid() == true
      ensures Valid() == true && unchanged(this) && unchanged(nil) && unchanged(order)
      ensures request in contents <==> node != nil
      ensures node != nil ==> node in order && node.key == request && node.data == contents[request]
    {
      ghost var visited;
      node, visited := Search(request);
      if node == nil {
        if request in contents { PresentInOrder(request); }
      } else {
        HoldsAt(node);
      }
    }

    lemma ValidParts()
      ensures Valid() <==> Sound() && FreeLists(Elems(order), Elems(stacks)) && StacksOk() && ChunkList()
    {
    }

    /** Erases the entry of `node` and returns its storage. */
    method EraseEntry(node: Node)
      requires Valid() == true && node in order
      modifies this, nil, order
      modifies node.data, if node.data == null then {} else {node.data.stack}
      ensures Valid() == true
      ensures contents == old(contents) - {old(node.key)}
      ensures unchanged(`allStacks) && forall n | n in order :: n in old(order)
    {
      hide *;
      ValidParts();
      HoldsAt(node);
      var erasure, stackLink := EraseUntouchedStacks(node);
      RecycleApart(erasure, stackLink);
      ValidParts();
    }

    /** Erases the request from the map: the tree stays a red-black search tree, the node
        and the cleared stack go back to storage, and every other request keeps its stack. */
    method Erase(request: nat)
      requires Valid() == true
      modifies this, nil, order
      modifies if request in contents then {contents[request]} else {}
      modifies if request in contents then {contents[request].stack} else {}
      ensures Valid() == true
      ensures contents == old(contents) - {request}
      ensures unchanged(`allStacks) && forall n | n in order :: n in old(order)
    {
      hide *;
      var node := Locate(request);
      if node != nil {
        EraseEntry(node);
      }
    }

    // ---------- inserting a request ----------

    twostate lemma ChainsStay()
      requires old(NodeChain(freeNodes, freeNodeList) && StackChain(freeStacks, freeStackList))
      requires freeNodes == old(freeNodes) && freeStacks == old(freeStacks)
      requires freeNodeList == old(freeNodeList) && freeStackList == old(freeStackList)
      requires forall n | n in freeNodeList :: n.parent == old(n.parent)
      requires forall l | l in freeStackList :: l.next == old(l.next)
      ensures NodeChain(freeNodes, freeNodeList) && StackChain(freeStacks, freeStackList)
    {
      forall i | 0 <= i < |freeNodeList| ensures freeNodeList[i].parent == old(freeNodeList[i].parent) {
        assert freeNodeList[i] in freeNodeList;
      }
      forall i | 0 <= i < |freeStackList| ensures freeStackList[i].next == old(freeStackList[i].next) {
        assert freeStackList[i] in freeStackList;
      }
    }

    /** Storage has a free node and a free stack afterwards. */
    method EnsureFree()
      requires Sound() == true && FreeLists(Elems(order), Elems(stacks)) == true
      requires StacksOk() == true && ChunkList() == true
      modifies this`freeNodes, this`freeStacks, this`freeNodeList, this`freeStackList
      modifies this`chunks, this`storeTail, this`allNodes, this`allStacks, storeTail`next
      ensures FreeLists(Elems(order), Elems(stacks)) == true
      ensures Sound() == true && StacksOk() == true && ChunkList() == true
      ensures freeNodes != null && freeStacks != null
      ensures freeNodeList == old(freeNodeList) || fresh(freeNodeList)
    {
      hide ChunkList, Around, Entries;
      if freeNodes == null || freeStacks == null {
        NilOutside();
        Grow(Elems(order), Elems(stacks));
      }
    }

    lemma NilOutside()
      requires Sound() == true && FreeLists(Elems(order), Elems(stacks)) == true
      ensures nil !in order && (freeNodes == null <==> freeStacks == null)
    {
      assert Sound() && FreeLists(Elems(order), Elems(stacks));
    }

    /** Draws a node and a stack. */
    method DrawFree() returns (node: Node, stackLink: StackLink)
      requires FreeLists(Elems(order), Elems(stacks)) == true && Sound() == true
      requires freeNodes != null && freeStacks != null
      modifies this`freeNodes, this`freeStacks, this`freeNodeList, this`freeStackList
      ensures FreeLists(Elems(order) + {node}, Elems(stacks) + {stackLink}) == true && Sound() == true
      ensures node !in order && node != nil && stackLink !in stacks
      ensures node in old(freeNodeList) && stackLink in old(freeStackList)
      ensures forall l | l in freeStackList :: l in old(freeStackList)
    {
      assert freeNodeList[0] in freeNodeList && freeStackList[0] in freeStackList;
      node, stackLink := TakeFree(Elems(order), Elems(stacks));
      assert node in Elems(order) + {node};
    }

    /** The stack drawn is a cleared one. */
    method Draw() returns (node: Node, stackLink: StackLink)
      requires FreeLists(Elems(order), Elems(stacks)) == true && Sound() == true
      requires StacksOk() == true && ChunkList() == true
      requires freeNodes != null && freeStacks != null
      modifies this`freeNodes, this`freeStacks, this`freeNodeList, this`freeStackList
      ensures FreeLists(Elems(order) + {node}, Elems(stacks) + {stackLink}) == true && Sound() == true
      ensures StacksOk() == true && ChunkList() == true
      ensures node !in order && node != nil && stackLink !in stacks && stackLink.stack.size == 0
      ensures node in old(freeNodeList)
    {
      node, stackLink := DrawFree();
      assert stackLink.stack.size == 0 by { assert old(StacksOk()); }
      StacksStay();
    }

    /** Draws a node and a cleared stack from storage, growing it when a free list is empty. */
    method Acquire() returns (node: Node, stackLink: StackLink)
      requires Sound() == true && FreeLists(Elems(order), Elems(stacks)) == true
      requires StacksOk() == true && ChunkList() == true
      modifies this`freeNodes, this`freeStacks, this`freeNodeList, this`freeStackList
      modifies this`chunks, this`storeTail, this`allNodes, this`allStacks, storeTail`next
      ensures FreeLists(Elems(order) + {node}, Elems(stacks) + {stackLink}) == true
      ensures Sound() == true && StacksOk() == true && ChunkList() == true
      ensures node !in order && node != nil && stackLink !in stacks && stackLink.stack.size == 0
      ensures node in old(freeNodeList) || fresh(node)
    {
      EnsureFree();
      node, stackLink := Draw();
    }

    method InsertAcquired(node: Node, parent: Node, request: nat, stackLink: StackLink)
      requires Sound() == true && FreeLists(Elems(order) + {node}, Elems(stacks) + {stackLink}) == true
      requires node !in order && node != nil && stackLink !in stacks && Fits(parent, request) == true
      modifies this`root, this`max, this`order, this`keys, this`stacks, this`contents, order, node
      ensures Sound() == true && FreeLists(Elems(order), Elems(stacks)) == true
      ensures contents == old(contents)[request := stackLink]
    {
      hide Sound;
      assert forall n | n in freeNodeList :: n !in Elems(order) + {node};
      assert forall n | n in freeNodeList :: n !in order && n != node;
      InsertNode(node, parent, request, stackLink);
      ChainsStay();
      assert Elems(order) == old(Elems(order)) + {node};
      assert Elems(stacks) == old(Elems(stacks)) + {stackLink};
    }

    method InsertApart(node: Node, parent: Node, request: nat, stackLink: StackLink)
      requires Sound() == true && FreeLists(Elems(order) + {node}, Elems(stacks) + {stackLink}) == true
      requires StacksOk() == true && ChunkList() == true
      requires node !in order && node != nil && stackLink !in stacks && Fits(parent, request) == true
      requires stackLink.stack.size == 0
      modifies this`root, this`max, this`order, this`keys, this`stacks, this`contents, order, node
      ensures Sound() == true && FreeLists(Elems(order), Elems(stacks)) == true
      ensures StacksOk() == true && ChunkList() == true && stackLink.stack.size == 0
      ensures contents == old(contents)[request := stackLink]
    {
      hide Sound;
      InsertAcquired(node, parent, request, stackLink);
      StacksStay();
    }

    /** A place for a new request, the storage for it, and the insertion. */
    method InsertNew(parent: Node, request: nat) returns (stackLink: StackLink)
      requires Sound() == true && FreeLists(Elems(order), Elems(stacks)) == true
      requires StacksOk() == true && ChunkList() == true && Fits(parent, request) == true
      modifies this, nil, order, freeNodeList, storeTail`next
      ensures Valid() == true && contents == old(contents)[request := stackLink]
      ensures stackLink.stack.size == 0
    {
      hide Sound;
      var node;
      node, stackLink := Acquire();
      InsertApart(node, parent, request, stackLink);
    }

    /** Clears the stack of a request that is already in the map. */
    method Reuse(stackLink: StackLink)
      requires Valid() == true && stackLink in stacks
      modifies stackLink.stack
      ensures Valid() == true && stackLink.stack.size == 0
    {
      assert FreeLists(Elems(order), Elems(stacks)) && StacksOk();
      assert stackLink in Elems(stacks) && stackLink in allStacks && Sturdy(stackLink, allStacks);
      stackLink.stack.Clear();
      TouchedApart(stackLink);
    }

    /** The entry found for a request: its stack is the one to clear. */
    lemma FoundAt(parent: Node)
      requires Valid() == true && parent in order
      ensures parent.key in contents && contents[parent.key] == parent.data && parent.data in stacks
      ensures contents[parent.key := parent.data] == contents
    {
      HoldsAt(parent);
    }

    /** Inserts the request with an empty stack. A request that is already there keeps its
        place and its stack object, which is cleared. */
    method Insert(request: nat) returns (stackLink: StackLink)
      requires Valid() == true
      modifies this, nil, order, freeNodeList, storeTail`next
      modifies if request in contents then {contents[request].stack} else {}
      ensures Valid() == true
      ensures contents == old(contents)[request := stackLink]
      ensures request in old(contents) ==> stackLink == old(contents[request])
      ensures stackLink.stack.size == 0
    {
      var parent, found := FindPlace(request);
      if found {
        FoundAt(parent);
        stackLink := parent.data;
        Reuse(stackLink);
      } else {
        NotHere(parent, request);
        stackLink := InsertNew(parent, request);
      }
    }

    lemma NotHere(parent: Node, request: nat)
      requires Valid() == true && Fits(parent, request) == true
      ensures request !in contents
    {
      assert Sound() && Fits(parent, request);
      assert request in contents ==> Occurs(keys, request);
    }

    /** The stacks of the requests are sound, and no two requests share any storage. */
    lemma StacksInUse(request: nat)
      requires Valid() == true && request in contents
      ensures contents[request] in stacks && contents[request] in allStacks && contents[request].stack.Valid()
      ensures forall other | other in contents && other != request ::
        Separate(contents[request].stack, contents[other].stack)
    {
      assert Valid();
      forall key | key in contents
        ensures contents[key] in stacks && contents[key] in allStacks
        ensures key != request ==> contents[key] != contents[request]
      {
        assert Occurs(keys, key) && Occurs(keys, request);
        var i :| 0 <= i < |keys| && keys[i] == key;
        var j :| 0 <= j < |keys| && keys[j] == request;
        assert contents[key] == stacks[i] && contents[request] == stacks[j];
        assert stacks[i] in stacks && stacks[i] in Elems(stacks);
      }
      assert Sturdy(contents[request], allStacks);
    }

    /** The stack of a request is in use: it is none of the free ones, which are empty, and every
        other stack of the map is separate from it. */
    lemma InStorage(stackLink: StackLink)
      requires Valid() == true && stackLink in stacks
      ensures Apart(allStacks) == true
      ensures Sound() == true && FreeLists(Elems(order), Elems(stacks)) == true && ChunkList() == true
      ensures forall l | l in freeStackList :: l in allStacks && l != stackLink && l.stack.size == 0
      ensures stackLink in allStacks && stackLink !in freeStackList && stackLink.stack.Valid()
      ensures forall l | l in allStacks && l != stackLink :: Separate(stackLink.stack, l.stack)
    {
      assert Valid();
      assert stackLink in Elems(stacks);
      assert Sturdy(stackLink, allStacks);
      assert forall l | l in freeStackList :: l in Elems(freeStackList);
    }

    lemma StackObjects(stack: CallStack)
      ensures this !in stack.Repr()
      ensures forall n: Node :: n !in stack.Repr()
      ensures forall l: StackLink :: l !in stack.Repr()
      ensures forall c: MapChunk :: c !in stack.Repr()
    {
    }

    lemma OutsideRepr(stack: CallStack, other: CallStack)
      requires Separate(stack, other)
      ensures other !in stack.Repr() && forall c | c in other.chunks :: c !in stack.Repr()
    {
    }

    method PushApart(stackLink: StackLink, programCounter: nat)
      requires Apart(allStacks) == true && stackLink in allStacks && stackLink.stack.Valid()
      requires forall l | l in allStacks && l != stackLink :: Separate(stackLink.stack, l.stack)
      requires forall l | l in freeStackList :: l in allStacks && l != stackLink && l.stack.size == 0
      modifies stackLink.stack.Repr()
      ensures Apart(allStacks) == true && stackLink.stack.Valid()
      ensures stackLink.stack.Contents() == old(stackLink.stack.Contents()) + [programCounter]
      ensures forall l | l in freeStackList :: l.stack.size == 0
    {
      forall l | l in allStacks && l != stackLink
        ensures l.stack !in stackLink.stack.Repr() && forall c | c in l.stack.chunks :: c !in stackLink.stack.Repr()
      {
        OutsideRepr(stackLink.stack, l.stack);
      }
      stackLink.stack.PushBack(programCounter);
      TouchedApart(stackLink);
    }

    /** Pushing frames on a stack leaves the tree alone. */
    method PushBesideTree(stackLink: StackLink, programCounter: nat)
      requires Sound() == true
      requires Apart(allStacks) == true && stackLink in allStacks && stackLink.stack.Valid()
      requires forall l | l in allStacks && l != stackLink :: Separate(stackLink.stack, l.stack)
      requires forall l | l in freeStackList :: l in allStacks && l != stackLink && l.stack.size == 0
      modifies stackLink.stack.Repr()
      ensures Sound() == true
      ensures Apart(allStacks) == true && stackLink.stack.Valid()
      ensures stackLink.stack.Contents() == old(stackLink.stack.Contents()) + [programCounter]
      ensures forall l | l in freeStackList :: l.stack.size == 0
    {
      hide Apart;
      StackObjects(stackLink.stack);
      PushApart(stackLink, programCounter);
    }

    /** It leaves the free lists and the chunk list alone too. */
    method PushOutside(stackLink: StackLink, programCounter: nat)
      requires Sound() == true && FreeLists(Elems(order), Elems(stacks)) == true && ChunkList() == true
      requires Apart(allStacks) == true && stackLink in allStacks && stackLink.stack.Valid()
      requires forall l | l in allStacks && l != stackLink :: Separate(stackLink.stack, l.stack)
      requires forall l | l in freeStackList :: l in allStacks && l != stackLink && l.stack.size == 0
      modifies stackLink.stack.Repr()
      ensures Sound() == true && FreeLists(Elems(order), Elems(stacks)) == true && ChunkList() == true
      ensures Apart(allStacks) == true && stackLink.stack.Valid()
      ensures stackLink.stack.Contents() == old(stackLink.stack.Contents()) + [programCounter]
      ensures forall l | l in freeStackList :: l.stack.size == 0
    {
      StackObjects(stackLink.stack);
      PushBesideTree(stackLink, programCounter);
    }

    /** What the caller of Insert does with the stack it gets: pushing frames on it keeps
        the map sound, and touches no other request's stack. */
    method Push(stackLink: StackLink, programCounter: nat)
      requires Valid() == true && stackLink in stacks
      requires stackLink.stack.Valid()
      modifies stackLink.stack.Repr()
      ensures Valid() == true && stackLink.stack.Valid()
      ensures stackLink.stack.Contents() == old(stackLink.stack.Contents()) + [programCounter]
    {
      InStorage(stackLink);
      PushOutside(stackLink, programCounter);
    }
  }
}
