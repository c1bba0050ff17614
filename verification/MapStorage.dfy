/** The nodes and stacks of the block map, and the chunks they are allocated in. */
module MapStorage {
  import opened Basics
  import opened CallStacks
  import opened Listings
  import opened RedBlackTrees

  class StackLink {
    var next: StackLink?
    const stack: CallStack
    constructor ()
      ensures stack.Valid() && stack.Contents() == [] && fresh(stack)
      ensures forall c | c in stack.chunks :: fresh(c) && fresh(c.frames)
    {
      next := null;
      stack := new CallStack();
    }
  }

  /** A tree node. The ghost fields give its place in the in-order listing of
      the whole tree (`pos`), the interval of places its subtree covers
      (`lo` up to `hi`), and its black height. */
  class Node {
    var color: Color
    var data: StackLink?
    var key: nat
    var left: Node
    var parent: Node?
    var right: Node
    ghost var lo: int
    ghost var pos: int
    ghost var hi: int
    ghost var bh: int

    constructor ()
      ensures data == null
    {
      left, right, data := this, this, null;
    }
  }

  const BLOCKMAP_CHUNK_SIZE := 64

  /** The listed nodes form a free list: their parent pointers lead from one to the next. */
  ghost predicate NodeChain(head: Node?, list: seq<Node>)
    reads list`parent
  {
    && head == (if list == [] then null else list[0])
    && forall i {:trigger list[i].parent} | 0 <= i < |list| ::
      list[i].parent == if i + 1 < |list| then list[i + 1] else null
  }

  ghost predicate StackChain(head: StackLink?, list: seq<StackLink>)
    reads list`next
  {
    && head == (if list == [] then null else list[0])
    && forall i {:trigger list[i].next} | 0 <= i < |list| ::
      list[i].next == if i + 1 < |list| then list[i + 1] else null
  }

  /** The two stacks share no storage. */
  ghost predicate Separate(a: CallStack, b: CallStack)
    reads a, b
  {
    && a != b
    && forall i, j :: 0 <= i < |a.chunks| && 0 <= j < |b.chunks| ==>
      a.chunks[i] != b.chunks[j] && a.chunks[i].frames != b.chunks[j].frames
  }

  ghost function StacksOf(links: set<StackLink>): set<CallStack>
  {
    set l | l in links :: l.stack
  }

  ghost function ChunksOf(stacks: set<CallStack>): set<Chunk>
    reads stacks
  {
    set s, c | s in stacks && c in s.chunks :: c
  }

  /** The stacks are sound and pairwise separate. */
  ghost predicate Apart(links: set<StackLink>)
    reads StacksOf(links), ChunksOf(StacksOf(links))
  {
    && (forall l | l in links :: Sturdy(l, links))
    && (forall k, l | k in links && l in links && k != l :: Separate(k.stack, l.stack))
  }

  ghost predicate Sturdy(l: StackLink, links: set<StackLink>)
    requires l in links
    reads StacksOf(links), ChunksOf(StacksOf(links))
  {
    l.stack in StacksOf(links) && (forall c | c in l.stack.chunks :: c in ChunksOf(StacksOf(links))) && l.stack.Valid()
  }

  lemma ListedApart(links: seq<StackLink>)
    requires forall l | l in links :: l.stack.Valid()
    requires forall i, j | 0 <= i < j < |links| :: Separate(links[i].stack, links[j].stack)
    ensures Apart(Elems(links)) == true
  {
    var all := Elems(links);
    forall l | l in all ensures Sturdy(l, all) {
      assert l.stack in StacksOf(all);
    }
    forall k, l | k in all && l in all && k != l ensures Separate(k.stack, l.stack) {
      var i :| 0 <= i < |links| && links[i] == k;
      var j :| 0 <= j < |links| && links[j] == l;
      assert i < j ==> Separate(links[i].stack, links[j].stack);
      assert j < i ==> Separate(links[j].stack, links[i].stack);
    }
  }

  twostate lemma ApartStays(links: set<StackLink>)
    requires old(Apart(links))
    requires forall l | l in links :: unchanged(l.stack)
    requires forall l, c | l in links && c in l.stack.chunks :: unchanged(c)
    ensures Apart(links) == true
  {
    forall l | l in links ensures Sturdy(l, links) {
      assert old(Sturdy(l, links));
      assert l.stack in StacksOf(links);
      forall i | 0 <= i < |l.stack.chunks| ensures l.stack.chunks[i].next == old(l.stack.chunks[i].next) {
        assert l.stack.chunks[i] in l.stack.chunks;
      }
    }
    forall k, l | k in links && l in links && k != l ensures Separate(k.stack, l.stack) {
      assert old(Separate(k.stack, l.stack));
    }
  }

  lemma JoinedApart(a: set<StackLink>, b: set<StackLink>)
    requires Apart(a) == true && Apart(b) == true
    requires forall k, l | k in a && l in b :: Separate(k.stack, l.stack)
    ensures Apart(a + b) == true
  {
    forall l | l in a + b ensures Sturdy(l, a + b) {
      assert l.stack in StacksOf(a + b);
      assert if l in a then Sturdy(l, a) else Sturdy(l, b);
    }
    forall k, l | k in a + b && l in a + b && k != l ensures Separate(k.stack, l.stack) {
      if k in a && l in b { assert Separate(k.stack, l.stack); }
      if k in b && l in a { assert Separate(l.stack, k.stack); }
    }
  }

  class MapChunk {
    var next: MapChunk?
    const nodes: seq<Node>
    const stacks: seq<StackLink>

    constructor (nodes: seq<Node>, stacks: seq<StackLink>)
      ensures this.nodes == nodes && this.stacks == stacks && next == null
    {
      this.nodes, this.stacks, next := nodes, stacks, null;
    }
  }

  ghost function NodesIn(chunks: seq<MapChunk>): set<Node>
  {
    if chunks == [] then {} else NodesIn(chunks[..|chunks| - 1]) + Elems(chunks[|chunks| - 1].nodes)
  }

  ghost function StacksIn(chunks: seq<MapChunk>): set<StackLink>
  {
    if chunks == [] then {} else StacksIn(chunks[..|chunks| - 1]) + Elems(chunks[|chunks| - 1].stacks)
  }

  lemma OneMoreChunk(chunks: seq<MapChunk>, chunk: MapChunk)
    ensures NodesIn(chunks + [chunk]) == NodesIn(chunks) + Elems(chunk.nodes)
    ensures StacksIn(chunks + [chunk]) == StacksIn(chunks) + Elems(chunk.stacks)
  {
    assert (chunks + [chunk])[..|chunks|] == chunks;
  }

  method MakeNodes() returns (nodes: seq<Node>)
    ensures |nodes| == BLOCKMAP_CHUNK_SIZE && Distinct(nodes) && fresh(nodes)
  {
    nodes := [];
    while |nodes| < BLOCKMAP_CHUNK_SIZE
      invariant |nodes| <= BLOCKMAP_CHUNK_SIZE && Distinct(nodes) && fresh(nodes)
    {
      var n := new Node();
      nodes := nodes + [n];
    }
  }

  method MakeStacks() returns (stacks: seq<StackLink>)
    ensures |stacks| == BLOCKMAP_CHUNK_SIZE && Distinct(stacks) && fresh(stacks)
    ensures forall l | l in stacks :: l.stack.Valid() && l.stack.Contents() == []
    ensures forall l | l in stacks :: fresh(l.stack) && fresh(l.stack.chunks)
    ensures forall l, c | l in stacks && c in l.stack.chunks :: fresh(c.frames)
    ensures forall i, j | 0 <= i < j < |stacks| :: Separate(stacks[i].stack, stacks[j].stack)
  {
    stacks := [];
    while |stacks| < BLOCKMAP_CHUNK_SIZE
      invariant |stacks| <= BLOCKMAP_CHUNK_SIZE && Distinct(stacks) && fresh(stacks)
      invariant forall l | l in stacks :: l.stack.Valid() && l.stack.Contents() == []
      invariant forall l | l in stacks :: fresh(l.stack) && fresh(l.stack.chunks)
      invariant forall l, c | l in stacks && c in l.stack.chunks :: fresh(c.frames)
      invariant forall i, j | 0 <= i < j < |stacks| :: Separate(stacks[i].stack, stacks[j].stack)
    {
      var l := new StackLink();
      stacks := stacks + [l];
    }
  }

  /** Links the nodes and the stacks of a chunk into two free lists. */
  method LinkFree(nodes: seq<Node>, stacks: seq<StackLink>)
    requires |nodes| == |stacks| == BLOCKMAP_CHUNK_SIZE && Distinct(nodes) && Distinct(stacks)
    modifies nodes`parent, stacks`next
    ensures NodeChain(nodes[0], nodes) && StackChain(stacks[0], stacks)
  {
    var index := 0;
    while index < BLOCKMAP_CHUNK_SIZE - 1
      invariant 0 <= index <= BLOCKMAP_CHUNK_SIZE - 1
      invariant forall i {:trigger nodes[i].parent} | 0 <= i < index :: nodes[i].parent == nodes[i + 1]
      invariant forall i {:trigger stacks[i].next} | 0 <= i < index :: stacks[i].next == stacks[i + 1]
    {
      nodes[index].parent := nodes[index + 1];
      stacks[index].next := stacks[index + 1];
      index := index + 1;
    }
    nodes[index].parent := null;
    stacks[index].next := null;
  }

  /** A chunk as it is when it joins the storage: all of it free, its stacks empty. */
  ghost predicate AllFree(chunk: MapChunk)
    reads chunk`next, chunk.nodes`parent, chunk.stacks`next
    reads StacksOf(Elems(chunk.stacks)), ChunksOf(StacksOf(Elems(chunk.stacks)))
    reads set l | l in chunk.stacks :: l.stack
  {
    && chunk.next == null
    && |chunk.nodes| == |chunk.stacks| == BLOCKMAP_CHUNK_SIZE && Distinct(chunk.nodes) && Distinct(chunk.stacks)
    && NodeChain(chunk.nodes[0], chunk.nodes) && StackChain(chunk.stacks[0], chunk.stacks)
    && Apart(Elems(chunk.stacks)) && forall l | l in chunk.stacks :: l.stack.size == 0
  }

  method MakeChunk() returns (chunk: MapChunk)
    ensures AllFree(chunk) == true
    ensures fresh(chunk) && fresh(chunk.nodes) && fresh(chunk.stacks)
    ensures forall l | l in chunk.stacks :: fresh(l.stack) && fresh(l.stack.chunks)
    ensures forall l, c | l in chunk.stacks && c in l.stack.chunks :: fresh(c.frames)
  {
    var nodes := MakeNodes();
    var links := MakeStacks();
    chunk := new MapChunk(nodes, links);
    LinkFree(nodes, links);
    ListedApart(links);
  }

  /** The nil node: black, and its own left and right child. */
  method MakeSentinel() returns (nil: Node)
    ensures fresh(nil) && nil.left == nil && nil.right == nil && nil.parent == null
    ensures nil.color == Black && nil.data == null && nil.key == 0 && nil.bh == 0
  {
    nil := new Node();
    nil.color := Black;
    nil.data := null;
    nil.key := 0;
    nil.left := nil;
    nil.parent := null;
    nil.right := nil;
    nil.bh := 0;
  }
}
