/** The call stack of the leak detector: a vector of program counters kept in a
    list of fixed-size chunks. Clearing it keeps the chunks for later pushes. */
module CallStacks {

  const CALLSTACK_CHUNK_SIZE := 32

  class Chunk {
    var next: Chunk?
    const frames: array<nat>

    constructor ()
      ensures next == null && frames.Length == CALLSTACK_CHUNK_SIZE && fresh(frames)
    {
      next := null;
      frames := new nat[CALLSTACK_CHUNK_SIZE];
    }
  }

  class CallStack {
    var capacity: nat
    var size: nat
    const store: Chunk
    var topChunk: Chunk
    var topIndex: nat

    /** The chunk list from `store` on. */
    ghost var chunks: seq<Chunk>

    ghost function Arrays(): set<object>
      reads this
    {
      set i | 0 <= i < |chunks| :: chunks[i].frames
    }

    ghost function Repr(): set<object>
      reads this
    {
      {this} + (set c: object | c in chunks) + Arrays()
    }

    /** The chunks form one list with distinct buffers, and the capacity counts it. */
    ghost predicate Chunked()
      reads this, chunks
    {
      && |chunks| >= 1 && chunks[0] == store
      && (forall i, j :: 0 <= i < j < |chunks| ==> chunks[i] != chunks[j] && chunks[i].frames != chunks[j].frames)
      && (forall i :: 0 <= i < |chunks| ==> chunks[i].frames.Length == CALLSTACK_CHUNK_SIZE)
      && (forall i :: 0 <= i < |chunks| - 1 ==> chunks[i].next == chunks[i + 1])
      && chunks[|chunks| - 1].next == null
      && capacity == CALLSTACK_CHUNK_SIZE * |chunks|
      && size <= capacity
    }

    ghost function TopNumber(): (k: int)
      reads this
    {
      if size == 0 then 0 else (size - 1) / CALLSTACK_CHUNK_SIZE
    }

    /** The top chunk and top index are the place just after the last pushed frame. */
    ghost predicate Valid()
      reads this, chunks
    {
      && Chunked()
      && topChunk == chunks[TopNumber()]
      && topIndex == size - CALLSTACK_CHUNK_SIZE * TopNumber()
    }

    ghost function Frame(i: int): nat
      requires Chunked() && 0 <= i < size
      reads this, chunks, Arrays()
    {
      chunks[i / CALLSTACK_CHUNK_SIZE].frames[i % CALLSTACK_CHUNK_SIZE]
    }

    /** The frames pushed since the last clear, oldest first. */
    ghost function Contents(): (s: seq<nat>)
      requires Chunked()
      reads this, chunks, Arrays()
      ensures |s| == size
      ensures forall i :: 0 <= i < size ==> s[i] == Frame(i)
    {
      seq(size, i requires Chunked() && 0 <= i < size reads this, chunks, Arrays() => Frame(i))
    }

    /** A stack whose parts are as they were has the contents it had. */
    twostate lemma Stays()
      requires old(Chunked()) && unchanged(this)
      requires forall i :: 0 <= i < |chunks| ==> unchanged(chunks[i]) && unchanged(chunks[i].frames)
      ensures Chunked() && Contents() == old(Contents())
    {
      forall i | 0 <= i < size ensures Frame(i) == old(Frame(i)) {
        var c := chunks[i / CALLSTACK_CHUNK_SIZE];
        assert unchanged(c.frames);
      }
    }

    constructor ()
      ensures Valid() && Contents() == []
      ensures forall c | c in chunks :: fresh(c) && fresh(c.frames)
    {
      capacity := CALLSTACK_CHUNK_SIZE;
      size := 0;
      var c := new Chunk();
      store := c;
      topChunk := c;
      topIndex := 0;
      chunks := [c];
    }

    method Clear()
      requires Valid()
      modifies this
      ensures Valid() && Contents() == []
      ensures chunks == old(chunks) && capacity == old(capacity)
    {
      size := 0;
      topChunk := store;
      topIndex := 0;
    }

    /** Makes the top chunk one with a free slot: a new chunk when the stack is at
        capacity, else the next chunk left over from before a clear. */
    method MakeRoom()
      requires Valid()
      modifies this, topChunk
      ensures Chunked() && size == old(size) < capacity && Contents() == old(Contents())
      ensures 0 <= size / CALLSTACK_CHUNK_SIZE < |chunks|
      ensures topChunk == chunks[size / CALLSTACK_CHUNK_SIZE] && topIndex == size % CALLSTACK_CHUNK_SIZE
      ensures if old(size) == old(capacity)
        then |chunks| == old(|chunks|) + 1 && chunks[..old(|chunks|)] == old(chunks)
          && fresh(chunks[old(|chunks|)]) && fresh(chunks[old(|chunks|)].frames)
        else chunks == old(chunks)
    {
      if size == capacity {
        var chunk := new Chunk();
        topChunk.next := chunk;
        topChunk := chunk;
        topIndex := 0;
        capacity := capacity + CALLSTACK_CHUNK_SIZE;
        chunks := chunks + [chunk];
      } else if topIndex == CALLSTACK_CHUNK_SIZE {
        assert chunks[TopNumber()].next == chunks[TopNumber() + 1];
        topChunk := topChunk.next;
        topIndex := 0;
      }
    }

    /** Writes the frame into the free slot. */
    method Store(programCounter: nat)
      requires Chunked() && size < capacity
      requires topChunk == chunks[size / CALLSTACK_CHUNK_SIZE] && topIndex == size % CALLSTACK_CHUNK_SIZE
      modifies this, topChunk.frames
      ensures Valid() && Contents() == old(Contents()) + [programCounter] && chunks == old(chunks)
    {
      topChunk.frames[topIndex] := programCounter;
      topIndex := topIndex + 1;
      size := size + 1;
    }

    method PushBack(programCounter: nat)
      requires Valid()
      modifies Repr()
      ensures Valid() && Contents() == old(Contents()) + [programCounter]
      ensures old(chunks) <= chunks
      ensures forall i :: |old(chunks)| <= i < |chunks| ==> fresh(chunks[i]) && fresh(chunks[i].frames)
      ensures |chunks| == if old(size) == old(capacity) then |old(chunks)| + 1 else |old(chunks)|
    {
      assert topChunk in Repr();
      MakeRoom();
      assert topChunk.frames in old(Repr()) || fresh(topChunk.frames);
      Store(programCounter);
    }

    /** Random access walks the chunk list. */
    method Get(index: nat) returns (frame: nat)
      requires Valid() && index < size
      ensures frame == Contents()[index]
    {
      var chunk := store;
      var count := 0;
      var chunkNumber := index / CALLSTACK_CHUNK_SIZE;
      while count < chunkNumber
        invariant count <= chunkNumber < |chunks| && chunk == chunks[count]
      {
        chunk := chunk.next;
        count := count + 1;
      }
      frame := chunk.frames[index % CALLSTACK_CHUNK_SIZE];
    }

    /** Compares chunk by chunk, up to the top index in the top chunk. */
    method Equals(target: CallStack) returns (equal: bool)
      requires Valid() && target.Valid()
      ensures equal <==> Contents() == target.Contents()
    {
      if size != target.size {
        return false;
      }
      var chunk: Chunk? := store;
      var prev: Chunk? := null;
      var targetChunk: Chunk? := target.store;
      ghost var k := 0;
      while prev != topChunk
        invariant 0 <= k <= TopNumber() + 1 <= |chunks|
        invariant prev == if k == 0 then null else chunks[k - 1]
        invariant k <= TopNumber() ==> chunk == chunks[k] && targetChunk == target.chunks[k]
        invariant forall i :: 0 <= i < size && i < CALLSTACK_CHUNK_SIZE * k ==> Contents()[i] == target.Contents()[i]
        decreases TopNumber() + 1 - k
      {
        var bound := if chunk == topChunk then topIndex else CALLSTACK_CHUNK_SIZE;
        var index := 0;
        while index < bound
          invariant 0 <= index <= bound <= CALLSTACK_CHUNK_SIZE
          invariant forall i :: 0 <= i < index ==> chunk.frames[i] == targetChunk.frames[i]
        {
          if chunk.frames[index] != targetChunk.frames[index] {
            assert Contents()[CALLSTACK_CHUNK_SIZE * k + index] != target.Contents()[CALLSTACK_CHUNK_SIZE * k + index];
            return false;
          }
          index := index + 1;
        }
        prev := chunk;
        chunk := chunk.next;
        targetChunk := targetChunk.next;
        k := k + 1;
      }
      return true;
    }
  }
}
