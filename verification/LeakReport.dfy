/** The leak report: a walk along the heap's list of allocated blocks that looks every block
    up in the block map, and can aggregate blocks with the same size and call stack. */
module LeakReport {
  import opened CallStacks
  import opened MapStorage
  import opened BlockMaps

  /** A block of the allocated list. Blocks of the run-time library itself are skipped. */
  datatype Block = Block(request: nat, size: nat, isCrt: bool)

  ghost predicate DistinctRequests(list: seq<Block>)
  {
    forall i, j :: 0 <= i < j < |list| ==> list[i].request != list[j].request
  }

  /** The blocks of the list that are leaks: not the library's own, and still in the map. */
  ghost function Leaks(list: seq<Block>, requests: set<nat>): nat
  {
    if list == [] then 0
    else (if !list[0].isCrt && list[0].request in requests then 1 else 0) + Leaks(list[1..], requests)
  }

  lemma {:induction false} OthersLeak(list: seq<Block>, requests: set<nat>, gone: nat)
    requires forall i :: 0 <= i < |list| ==> list[i].request != gone
    ensures Leaks(list, requests - {gone}) == Leaks(list, requests)
  {
    if list != [] {
      OthersLeak(list[1..], requests, gone);
    }
  }

  // ---------- the report on values ----------

  /** The call stack of each request. */
  type Traces = map<nat, seq<nat>>

  /** Takes the blocks of the list with this size and call stack out of the map: the requests
      left in it, and how many went. */
  function WithoutDuplicates(list: seq<Block>, size: nat, frames: seq<nat>, traces: Traces,
      requests: set<nat>): (set<nat>, nat)
    requires requests <= traces.Keys
  {
    if list == [] then (requests, 0)
    else if IsDuplicate(list[0], size, frames, traces, requests) then
      var rest := WithoutDuplicates(list[1..], size, frames, traces, requests - {list[0].request});
      (rest.0, rest.1 + 1)
    else WithoutDuplicates(list[1..], size, frames, traces, requests)
  }

  predicate IsDuplicate(b: Block, size: nat, frames: seq<nat>, traces: Traces, requests: set<nat>)
    requires requests <= traces.Keys
  {
    !b.isCrt && b.size == size && b.request in requests && traces[b.request] == frames
  }

  function Report(list: seq<Block>, traces: Traces, requests: set<nat>, aggregate: bool): nat
    requires requests <= traces.Keys
  {
    if list == [] then 0
    else if list[0].isCrt || list[0].request !in requests then Report(list[1..], traces, requests, aggregate)
    else if aggregate then
      DuplicatesAmong(list[1..], list[0].size, traces[list[0].request], traces, requests);
      var erased := WithoutDuplicates(list[1..], list[0].size, traces[list[0].request], traces, requests);
      1 + erased.1 + Report(list[1..], traces, erased.0, aggregate)
    else 1 + Report(list[1..], traces, requests, aggregate)
  }

  /** What is left in the map behind the report. */
  function ReportLeft(list: seq<Block>, traces: Traces, requests: set<nat>, aggregate: bool): set<nat>
    requires requests <= traces.Keys
  {
    if list == [] then requests
    else if list[0].isCrt || list[0].request !in requests then ReportLeft(list[1..], traces, requests, aggregate)
    else if aggregate then
      DuplicatesAmong(list[1..], list[0].size, traces[list[0].request], traces, requests);
      var erased := WithoutDuplicates(list[1..], list[0].size, traces[list[0].request], traces, requests);
      ReportLeft(list[1..], traces, erased.0, aggregate)
    else ReportLeft(list[1..], traces, requests, aggregate)
  }

  lemma OthersDiffer(list: seq<Block>)
    requires DistinctRequests(list) && list != []
    ensures DistinctRequests(list[1..]) && forall i :: 0 <= i < |list[1..]| ==> list[1..][i].request != list[0].request
  {
  }

  lemma {:induction false} DuplicatesAmong(list: seq<Block>, size: nat, frames: seq<nat>, traces: Traces,
      requests: set<nat>)
    requires requests <= traces.Keys
    ensures WithoutDuplicates(list, size, frames, traces, requests).0 <= requests
  {
    if list != [] {
      DuplicatesAmong(list[1..], size, frames, traces, requests);
      DuplicatesAmong(list[1..], size, frames, traces, requests - {list[0].request});
    }
  }

  /** A duplicate of this request is in the list. */
  ghost predicate Listed(list: seq<Block>, size: nat, request: nat)
  {
    exists i :: 0 <= i < |list| && list[i].request == request && !list[i].isCrt && list[i].size == size
  }

  lemma ListedStep(list: seq<Block>, size: nat, request: nat)
    requires list != []
    ensures Listed(list, size, request) <==>
      (list[0].request == request && !list[0].isCrt && list[0].size == size) || Listed(list[1..], size, request)
  {
    if Listed(list[1..], size, request) {
      var i :| 0 <= i < |list[1..]| && list[1..][i].request == request
        && !list[1..][i].isCrt && list[1..][i].size == size;
      assert list[i + 1] == list[1..][i];
    }
    if Listed(list, size, request) {
      var i :| 0 <= i < |list| && list[i].request == request && !list[i].isCrt && list[i].size == size;
      assert i > 0 ==> list[1..][i - 1] == list[i];
    }
  }

  /** Exactly the duplicates go, and each that goes is one leak less in the list. */
  lemma {:induction false} DuplicatesCount(list: seq<Block>, size: nat, frames: seq<nat>, traces: Traces,
      requests: set<nat>)
    requires DistinctRequests(list) && requests <= traces.Keys
    ensures var r := WithoutDuplicates(list, size, frames, traces, requests);
      && r.1 + Leaks(list, r.0) == Leaks(list, requests)
      && (forall request :: request in r.0 <==>
        request in requests && !(traces[request] == frames && Listed(list, size, request)))
  {
    if list != [] {
      OthersDiffer(list);
      forall request ensures Listed(list, size, request) <==>
        (list[0].request == request && !list[0].isCrt && list[0].size == size) || Listed(list[1..], size, request)
      {
        ListedStep(list, size, request);
      }
      var b := list[0];
      assert !Listed(list[1..], size, b.request);
      if IsDuplicate(b, size, frames, traces, requests) {
        DuplicatesCount(list[1..], size, frames, traces, requests - {b.request});
        OthersLeak(list[1..], requests, b.request);
      } else {
        DuplicatesCount(list[1..], size, frames, traces, requests);
      }
    }
  }

  /** With or without aggregation the report counts the leaks. */
  lemma {:induction false} ReportCounts(list: seq<Block>, traces: Traces, requests: set<nat>, aggregate: bool)
    requires DistinctRequests(list) && requests <= traces.Keys
    ensures Report(list, traces, requests, aggregate) == Leaks(list, requests)
  {
    if list != [] {
      OthersDiffer(list);
      var b := list[0];
      if b.isCrt || b.request !in requests || !aggregate {
        ReportCounts(list[1..], traces, requests, aggregate);
      } else {
        var erased := WithoutDuplicates(list[1..], b.size, traces[b.request], traces, requests);
        DuplicatesAmong(list[1..], b.size, traces[b.request], traces, requests);
        DuplicatesCount(list[1..], b.size, traces[b.request], traces, requests);
        ReportCounts(list[1..], traces, erased.0, aggregate);
      }
    }
  }

  /** A block of the list is in the map and not the library's own, and so is this one with the same
      size and call stack. */
  ghost predicate Alike(a: Block, b: Block, traces: Traces, requests: set<nat>)
  {
    && !a.isCrt && !b.isCrt && a.request in requests && b.request in requests && a.size == b.size
    && a.request in traces && b.request in traces && traces[a.request] == traces[b.request]
  }

  /** Such a block comes before the block of the request. */
  ghost predicate HasEarlier(list: seq<Block>, traces: Traces, requests: set<nat>, request: nat)
  {
    exists i, j :: 0 <= i < j < |list| && list[j].request == request && Alike(list[i], list[j], traces, requests)
  }

  /** It is the first block of the list, or it comes after that. */
  lemma HasEarlierStep(list: seq<Block>, traces: Traces, requests: set<nat>, request: nat)
    requires list != []
    ensures HasEarlier(list, traces, requests, request) <==>
      || HasEarlier(list[1..], traces, requests, request)
      || exists j :: 0 < j < |list| && list[j].request == request && Alike(list[0], list[j], traces, requests)
  {
    if HasEarlier(list[1..], traces, requests, request) {
      var i, j :| 0 <= i < j < |list[1..]| && list[1..][j].request == request
        && Alike(list[1..][i], list[1..][j], traces, requests);
      assert list[i + 1] == list[1..][i] && list[j + 1] == list[1..][j];
    }
    if HasEarlier(list, traces, requests, request) {
      var i, j :| 0 <= i < j < |list| && list[j].request == request && Alike(list[i], list[j], traces, requests);
      assert i > 0 ==> list[1..][i - 1] == list[i] && list[1..][j - 1] == list[j];
    }
  }

  /** Without the duplicates of a block, a block has an earlier one alike if it had one before. */
  lemma EarlierAnyway(list: seq<Block>, traces: Traces, requests: set<nat>, fewer: set<nat>, size: nat,
      frames: seq<nat>, request: nat)
    requires DistinctRequests(list) && requests <= traces.Keys && fewer <= requests && request in fewer
    requires forall r :: r in fewer <==> r in requests && !(traces[r] == frames && Listed(list, size, r))
    ensures HasEarlier(list, traces, fewer, request) <==> HasEarlier(list, traces, requests, request)
  {
    if i, j :| 0 <= i < j < |list| && list[j].request == request && Alike(list[i], list[j], traces, requests) {
      assert Listed(list, size, list[i].request) ==> Listed(list, size, request);
      assert Alike(list[i], list[j], traces, fewer);
    }
    if i, j :| 0 <= i < j < |list| && list[j].request == request && Alike(list[i], list[j], traces, fewer) {
      assert Alike(list[i], list[j], traces, requests);
    }
  }

  /** With aggregation exactly the first block of each size and call stack stays in the map; without
      it, all of them. */
  lemma {:induction false} ReportLeaves(list: seq<Block>, traces: Traces, requests: set<nat>, aggregate: bool)
    requires DistinctRequests(list) && requests <= traces.Keys
    ensures forall request :: request in ReportLeft(list, traces, requests, aggregate) <==>
      request in requests && !(aggregate && HasEarlier(list, traces, requests, request))
    decreases |list|
  {
    hide HasEarlier, Listed, WithoutDuplicates;
    if list == [] {
      forall request ensures !HasEarlier(list, traces, requests, request) {
        NoneEarlier(traces, requests, request);
      }
    } else {
      OthersDiffer(list);
      var b := list[0];
      if b.isCrt || b.request !in requests || !aggregate {
        ReportLeaves(list[1..], traces, requests, aggregate);
        forall request ensures aggregate ==> (HasEarlier(list, traces, requests, request) <==>
          HasEarlier(list[1..], traces, requests, request))
        {
          HasEarlierStep(list, traces, requests, request);
        }
      } else {
        ReportLeavesFirst(list, traces, requests);
      }
    }
  }

  lemma NoneEarlier(traces: Traces, requests: set<nat>, request: nat)
    ensures !HasEarlier([], traces, requests, request)
  {
  }

  lemma {:induction false} ReportLeavesFirst(list: seq<Block>, traces: Traces, requests: set<nat>)
    requires DistinctRequests(list) && requests <= traces.Keys && list != []
    requires !list[0].isCrt && list[0].request in requests
    ensures forall request :: request in ReportLeft(list, traces, requests, true) <==>
      request in requests && !HasEarlier(list, traces, requests, request)
    decreases |list|, 0
  {
    hide HasEarlier, Listed, WithoutDuplicates, Alike;
    OthersDiffer(list);
    var b, rest := list[0], list[1..];
    var fewer := WithoutDuplicates(rest, b.size, traces[b.request], traces, requests).0;
    DuplicatesAmong(rest, b.size, traces[b.request], traces, requests);
    DuplicatesCount(rest, b.size, traces[b.request], traces, requests);
    ReportLeaves(rest, traces, fewer, true);
    forall request | request in requests
      ensures HasEarlier(list, traces, requests, request) <==>
        request !in fewer || HasEarlier(rest, traces, fewer, request)
    {
      HasEarlierStep(list, traces, requests, request);
      AlikeFirst(list, traces, requests, request);
      if request in fewer {
        EarlierAnyway(rest, traces, requests, fewer, b.size, traces[b.request], request);
      }
    }
  }

  lemma AlikeFirst(list: seq<Block>, traces: Traces, requests: set<nat>, request: nat)
    requires requests <= traces.Keys && list != [] && request in requests
    requires !list[0].isCrt && list[0].request in requests
    ensures (exists j :: 0 < j < |list| && list[j].request == request && Alike(list[0], list[j], traces, requests))
      <==> traces[request] == traces[list[0].request] && Listed(list[1..], list[0].size, request)
  {
    var rest := list[1..];
    if j :| 0 < j < |list| && list[j].request == request && Alike(list[0], list[j], traces, requests) {
      assert rest[j - 1] == list[j];
    }
    if i :| 0 <= i < |rest| && rest[i].request == request && !rest[i].isCrt && rest[i].size == list[0].size {
      assert list[i + 1] == rest[i];
    }
  }

  // ---------- the objects ----------

  class LeakDetector {
    const blockMap: BlockMap

    constructor (blockMap: BlockMap)
      ensures this.blockMap == blockMap
    {
      this.blockMap := blockMap;
    }

    /** The map is sound, it holds these requests, and their stacks hold the frames that `traces`
        says. */
    ghost predicate Holds(requests: set<nat>, traces: Traces)
      reads *
    {
      blockMap.Valid() && Traced(traces) && blockMap.contents.Keys == requests
    }

    /** The stack of this request in the map. */
    ghost predicate Owns(owner: nat, callstack: CallStack)
      reads blockMap
    {
      owner in blockMap.contents && blockMap.contents[owner].stack == callstack
    }

    /** The stacks of the requests in the map hold the frames that `traces` says. */
    ghost predicate Traced(traces: Traces)
      reads *
    {
      forall r {:trigger blockMap.contents[r]} | r in blockMap.contents ::
        r in traces && blockMap.contents[r].stack.Valid() && blockMap.contents[r].stack.Contents() == traces[r]
    }

    /** All that the stacks of the other requests are made of. */
    ghost function Others(request: nat): (kept: set<object>)
      reads *
    {
      set r, o | r in blockMap.contents && r != request && o in blockMap.contents[r].stack.Repr() :: o
    }

    /** The stacks of the other requests hold the frames that `traces` says. */
    ghost predicate TracedBut(request: nat, traces: Traces)
      reads *
    {
      forall r {:trigger blockMap.contents[r]} | r in blockMap.contents && r != request ::
        r in traces && blockMap.contents[r].stack.Valid() && blockMap.contents[r].stack.Contents() == traces[r]
    }

    /** Other entries that stay, with stacks that stay as they are, keep their frames. */
    twostate lemma OthersTraced(request: nat)
      requires blockMap.contents - {request} == old(blockMap.contents) - {request}
      requires forall o | o in old(Others(request)) :: unchanged(o)
      ensures forall traces {:trigger old(Traced(traces))} :: old(Traced(traces)) ==> TracedBut(request, traces) == true
    {
      forall traces, r | old(Traced(traces)) && r in blockMap.contents && r != request
        ensures r in traces && blockMap.contents[r].stack.Valid() && blockMap.contents[r].stack.Contents() == traces[r]
      {
        assert r in blockMap.contents - {request};
        assert r in old(blockMap.contents) && blockMap.contents[r] == old(blockMap.contents[r]);
        var stack := old(blockMap.contents[r].stack);
        assert old(stack.Valid()) && old(stack.Contents()) == traces[r];
        assert stack in old(stack.Repr()) && stack in old(Others(request));
        forall i | 0 <= i < |stack.chunks| ensures unchanged(stack.chunks[i]) && unchanged(stack.chunks[i].frames) {
          assert stack.chunks[i] in old(stack.Repr()) && stack.chunks[i].frames in old(stack.Repr());
          assert stack.chunks[i] in old(Others(request)) && stack.chunks[i].frames in old(Others(request));
        }
        stack.Stays();
      }
    }

    /** Nothing an erasure changes is part of another request's stack. */
    lemma ErasedApart(request: nat)
      requires blockMap.Valid() == true
      ensures request in blockMap.contents ==> blockMap.contents[request] in blockMap.allStacks
      ensures request in blockMap.contents ==>
        Others(request) !! {blockMap.contents[request], blockMap.contents[request].stack}
    {
      if request in blockMap.contents {
        blockMap.StacksInUse(request);
      }
    }

    lemma OthersAreStacks(request: nat)
      ensures Others(request) !! {blockMap, blockMap.nil} && forall n | n in blockMap.order :: n !in Others(request)
    {
    }

    /** What erasing entries may change. */
    ghost function Footprint(): set<object>
      reads blockMap
    {
      {blockMap, blockMap.nil} + (set n: object | n in blockMap.order) + blockMap.allStacks
        + StacksOf(blockMap.allStacks)
    }

    /** Erasing a request leaves alone all that the other stacks are made of. */
    method EraseApart(request: nat, ghost kept: set<object>)
      requires blockMap.Valid() == true
      requires kept !! {blockMap, blockMap.nil} && forall n | n in blockMap.order :: n !in kept
      requires request in blockMap.contents ==> blockMap.contents[request] in blockMap.allStacks
      requires request in blockMap.contents ==> kept !! {blockMap.contents[request], blockMap.contents[request].stack}
      modifies Footprint()
      ensures blockMap.Valid() == true && blockMap.contents == old(blockMap.contents) - {request}
      ensures blockMap.contents - {request} == old(blockMap.contents) - {request}
      ensures Footprint() <= old(Footprint())
      ensures forall o | o in kept :: unchanged(o)
    {
      hide BlockMap.Valid;
      blockMap.Erase(request);
    }

    /** With its own stack read too, the entry completes the others. */
    lemma TracedWith(request: nat, traces: Traces, frames: seq<nat>)
      requires TracedBut(request, traces)
      requires request in blockMap.contents ==>
        blockMap.contents[request].stack.Valid() && blockMap.contents[request].stack.Contents() == frames
      ensures Traced(traces[request := frames]) == true
      ensures request !in blockMap.contents ==> Traced(traces) == true
    {
    }

    /** A block is freed: its entry goes, and every other stack keeps its frames. */
    method HookFree(request: nat, ghost traces: Traces)
      requires blockMap.Valid() == true && Traced(traces) == true
      modifies Footprint()
      ensures blockMap.Valid() == true && Traced(traces) == true
      ensures blockMap.contents == old(blockMap.contents) - {request}
      ensures Footprint() <= old(Footprint())
    {
      ErasedApart(request);
      OthersAreStacks(request);
      EraseApart(request, Others(request));
      OthersTraced(request);
      TracedWith(request, traces, []);
    }

    /** Inserting a request leaves alone all that the other stacks are made of. */
    method InsertApart(request: nat, ghost kept: set<object>) returns (stackLink: StackLink)
      requires blockMap.Valid() == true
      requires kept !! {blockMap, blockMap.nil, blockMap.storeTail}
      requires forall n | n in blockMap.order || n in blockMap.freeNodeList :: n !in kept
      requires request in blockMap.contents ==> blockMap.contents[request].stack !in kept
      modifies blockMap, blockMap.nil, blockMap.order, blockMap.freeNodeList, blockMap.storeTail`next
      modifies if request in blockMap.contents then {blockMap.contents[request].stack} else {}
      ensures blockMap.Valid() == true && blockMap.contents == old(blockMap.contents)[request := stackLink]
      ensures blockMap.contents - {request} == old(blockMap.contents) - {request} && stackLink.stack.size == 0
      ensures forall o | o in kept :: unchanged(o)
    {
      hide BlockMap.Valid;
      stackLink := blockMap.Insert(request);
      SameBut(old(blockMap.contents), request, stackLink);
    }

    static lemma SameBut(m: map<nat, StackLink>, request: nat, stackLink: StackLink)
      ensures m[request := stackLink] - {request} == m - {request} == m - {request} - {request}
    {
    }

    lemma InsertedApart(request: nat)
      ensures Others(request) !! {blockMap, blockMap.nil, blockMap.storeTail}
      ensures forall n | n in blockMap.order || n in blockMap.freeNodeList :: n !in Others(request)
    {
    }

    method InsertBeside(request: nat, ghost traces: Traces) returns (stackLink: StackLink)
      requires blockMap.Valid() == true && Traced(traces) == true
      modifies blockMap, blockMap.nil, blockMap.order, blockMap.freeNodeList, blockMap.storeTail`next
      modifies if request in blockMap.contents then {blockMap.contents[request].stack} else {}
      ensures blockMap.Valid() == true && TracedBut(request, traces) == true
      ensures blockMap.contents == old(blockMap.contents)[request := stackLink] && stackLink.stack.size == 0
    {
      ErasedApart(request);
      InsertedApart(request);
      stackLink := InsertApart(request, Others(request));
      OthersTraced(request);
    }

    lemma TracedEmpty(request: nat, traces: Traces)
      requires blockMap.Valid() == true && TracedBut(request, traces) == true
      requires request in blockMap.contents && blockMap.contents[request].stack.size == 0
      ensures Traced(traces[request := []]) == true
    {
      blockMap.StacksInUse(request);
      assert blockMap.contents[request].stack.Contents() == [];
      TracedWith(request, traces, []);
    }

    /** A block is allocated: it gets an entry with an empty stack, and every other stack keeps its frames. */
    method HookMalloc(request: nat, ghost traces: Traces) returns (stackLink: StackLink)
      requires blockMap.Valid() == true && Traced(traces) == true
      modifies blockMap, blockMap.nil, blockMap.order, blockMap.freeNodeList, blockMap.storeTail`next
      modifies if request in blockMap.contents then {blockMap.contents[request].stack} else {}
      ensures blockMap.Valid() == true && Traced(traces[request := []]) == true
      ensures blockMap.contents == old(blockMap.contents)[request := stackLink]
    {
      stackLink := InsertBeside(request, traces);
      TracedEmpty(request, traces);
    }

    /** Pushing a frame leaves alone all that the other stacks are made of. */
    method PushApart(stackLink: StackLink, frame: nat, ghost kept: set<object>)
      requires blockMap.Valid() == true && stackLink in blockMap.stacks && stackLink.stack.Valid()
      requires kept !! stackLink.stack.Repr()
      modifies stackLink.stack.Repr()
      ensures blockMap.Valid() == true && stackLink.stack.Valid()
      ensures stackLink.stack.Contents() == old(stackLink.stack.Contents()) + [frame]
      ensures blockMap.contents == old(blockMap.contents)
      ensures forall o | o in kept :: unchanged(o)
    {
      blockMap.StackObjects(stackLink.stack);
      blockMap.Push(stackLink, frame);
    }

    lemma PushedApart(request: nat)
      requires blockMap.Valid() == true && request in blockMap.contents
      ensures blockMap.contents[request] in blockMap.stacks && blockMap.contents[request].stack.Valid()
      ensures Others(request) !! blockMap.contents[request].stack.Repr()
    {
      blockMap.StacksInUse(request);
      var stack := blockMap.contents[request].stack;
      forall r, o | r in blockMap.contents && r != request && o in blockMap.contents[r].stack.Repr()
        ensures o !in stack.Repr() {
        assert Separate(stack, blockMap.contents[r].stack);
      }
    }

    /** A frame of the stack trace is recorded for an allocated block. */
    method RecordFrame(request: nat, stackLink: StackLink, frame: nat, ghost traces: Traces)
      requires blockMap.Valid() == true && Traced(traces) == true
      requires request in blockMap.contents && blockMap.contents[request] == stackLink
      modifies stackLink.stack.Repr()
      ensures blockMap.Valid() == true && Traced(traces[request := traces[request] + [frame]]) == true
      ensures blockMap.contents == old(blockMap.contents)
    {
      PushedApart(request);
      PushApart(stackLink, frame, Others(request));
      OthersTraced(request);
      TracedWith(request, traces, traces[request] + [frame]);
    }

    /** Looks a block up, which leaves the map as it is. */
    method LookUp(request: nat, ghost traces: Traces) returns (target: StackLink?)
      requires blockMap.Valid() == true && Traced(traces) == true
      ensures blockMap.Valid() == true && Traced(traces) == true && blockMap.contents == old(blockMap.contents)
      ensures Footprint() == old(Footprint())
      ensures target == if request in blockMap.contents then blockMap.contents[request] else null
    {
      ghost var visited;
      target, visited := blockMap.Find(request);
      AsBefore(traces);
    }

    twostate lemma AsBefore(traces: Traces)
      requires old(Traced(traces)) == true && blockMap.contents == old(blockMap.contents)
      requires forall s: CallStack {:trigger s.chunks} | old(allocated(s)) :: unchanged(s)
      requires forall c: Chunk {:trigger c.next} | old(allocated(c)) :: unchanged(c)
      requires forall a: array<nat> {:trigger a[..]} | old(allocated(a)) :: unchanged(a)
      ensures Traced(traces) == true
    {
      forall r | r in blockMap.contents
        ensures r in traces && blockMap.contents[r].stack.Valid() && blockMap.contents[r].stack.Contents() == traces[r]
      {
        var stack := old(blockMap.contents[r].stack);
        assert stack.chunks == old(stack.chunks);
        forall i | 0 <= i < |stack.chunks| ensures unchanged(stack.chunks[i]) && unchanged(stack.chunks[i].frames) {
          var c := old(stack.chunks)[i];
          var a := c.frames;
          assert c.next == old(c.next) && a[..] == old(a[..]);
        }
        stack.Stays();
      }
    }

    /** Compares two stacks, which leaves the map as it is. */
    method Compare(target: CallStack, callstack: CallStack) returns (same: bool)
      requires blockMap.Valid() == true && target.Valid() && callstack.Valid()
      ensures blockMap.Valid() == true && blockMap.contents == old(blockMap.contents)
      ensures same == (old(target.Contents()) == old(callstack.Contents()))
    {
      same := target.Equals(callstack);
      target.Stays();
      callstack.Stays();
    }

    /** Whether a block is in the map with the same call stack. */
    method SameStack(request: nat, callstack: CallStack, ghost owner: nat, ghost traces: Traces) returns (same: bool)
      requires blockMap.Valid() == true && Traced(traces) == true
      requires owner in blockMap.contents && blockMap.contents[owner].stack == callstack
      ensures blockMap.Valid() == true && Traced(traces) == true && blockMap.contents == old(blockMap.contents)
      ensures Footprint() == old(Footprint())
      ensures same == (request in blockMap.contents && traces[request] == traces[owner])
    {
      var target := LookUp(request, traces);
      same := target != null;
      if same {
        same := Compare(target.stack, callstack);
      }
      AsBefore(traces);
    }

    /** Looks a block of the list up. */
    method Find(request: nat, ghost requests: set<nat>, ghost traces: Traces) returns (callstack: CallStack?)
      requires Holds(requests, traces) == true
      ensures Holds(requests, traces) == true && Footprint() == old(Footprint())
      ensures (callstack != null) == (request in requests) && (callstack != null ==> Owns(request, callstack))
    {
      var target := LookUp(request, traces);
      callstack := if target == null then null else target.stack;
    }

    /** Whether a block is in the map with the call stack of another one. */
    method HasStack(request: nat, callstack: CallStack, ghost owner: nat, ghost requests: set<nat>,
        ghost traces: Traces) returns (same: bool)
      requires Holds(requests, traces) == true && Owns(owner, callstack) && requests <= traces.Keys && owner in traces
      ensures Holds(requests, traces) == true && Footprint() == old(Footprint()) && Owns(owner, callstack)
      ensures same == (request in requests && traces[request] == traces[owner])
    {
      same := SameStack(request, callstack, owner, traces);
    }

    method EraseOther(request: nat, callstack: CallStack, ghost owner: nat, ghost requests: set<nat>,
        ghost traces: Traces)
      requires Holds(requests, traces) == true && Owns(owner, callstack) && request != owner
      modifies Footprint()
      ensures Holds(requests - {request}, traces) == true && Footprint() <= old(Footprint()) && Owns(owner, callstack)
    {
      hide BlockMap.Valid, Traced;
      HookFree(request, traces);
    }

    /** Erases one block if it has the size and the call stack. */
    method EraseDuplicate(b: Block, size: nat, callstack: CallStack, ghost owner: nat, ghost requests: set<nat>,
        ghost traces: Traces)
      returns (erased: bool)
      requires Holds(requests, traces) == true && requests <= traces.Keys && owner in traces
      requires Owns(owner, callstack) && b.request != owner
      modifies Footprint()
      ensures Holds(if erased then requests - {b.request} else requests, traces) == true
      ensures Footprint() <= old(Footprint()) && Owns(owner, callstack)
      ensures erased == IsDuplicate(b, size, traces[owner], traces, requests)
    {
      hide Holds, Footprint, Owns;
      if b.isCrt || b.size != size {
        return false;
      }
      erased := HasStack(b.request, callstack, owner, requests, traces);
      if erased {
        EraseOther(b.request, callstack, owner, requests, traces);
      }
    }

    /** Erases the duplicates of a reported block from the blocks behind it, and counts them. */
    method EraseDuplicates(list: seq<Block>, from: nat, size: nat, callstack: CallStack, ghost owner: nat,
                           ghost requests: set<nat>, ghost traces: Traces) returns (erased: nat, ghost after: set<nat>)
      requires from <= |list| && Holds(requests, traces) == true && requests <= traces.Keys && owner in traces
      requires Owns(owner, callstack) && forall i :: from <= i < |list| ==> list[i].request != owner
      modifies Footprint()
      ensures Holds(after, traces) == true && Footprint() <= old(Footprint())
      ensures (after, erased) == WithoutDuplicates(list[from..], size, traces[owner], traces, requests)
    {
      hide Holds, Footprint, Owns;
      after := requests;
      erased := 0;
      var k := from;
      while k < |list|
        invariant from <= k <= |list| && after <= requests
        invariant Holds(after, traces) == true && Footprint() <= old(Footprint()) && Owns(owner, callstack)
        invariant var rest := WithoutDuplicates(list[k..], size, traces[owner], traces, after);
          WithoutDuplicates(list[from..], size, traces[owner], traces, requests) == (rest.0, erased + rest.1)
      {
        assert list[k..][1..] == list[k + 1..];
        var found := EraseDuplicate(list[k], size, callstack, owner, after, traces);
        if found {
          after := after - {list[k].request};
          erased := erased + 1;
        }
        k := k + 1;
      }
    }

    /** Counts a block found in the map, with its duplicates when they are aggregated under it. */
    method ReportLeak(list: seq<Block>, k: nat, callstack: CallStack, aggregate: bool, ghost requests: set<nat>,
        ghost traces: Traces)
      returns (found: nat, ghost after: set<nat>)
      requires k < |list| && DistinctRequests(list) && Holds(requests, traces) == true && requests <= traces.Keys
      requires !list[k].isCrt && list[k].request in requests && Owns(list[k].request, callstack)
      modifies Footprint()
      ensures Holds(after, traces) == true && Footprint() <= old(Footprint()) && after <= requests
      ensures found + Report(list[k + 1..], traces, after, aggregate) == Report(list[k..], traces, requests, aggregate)
      ensures ReportLeft(list[k + 1..], traces, after, aggregate) == ReportLeft(list[k..], traces, requests, aggregate)
    {
      hide Holds, Footprint, Owns;
      found, after := 1, requests;
      assert list[k..][1..] == list[k + 1..];
      if aggregate {
        DuplicatesAmong(list[k + 1..], list[k].size, traces[list[k].request], traces, requests);
        var duplicates;
        duplicates, after := EraseDuplicates(list, k + 1, list[k].size, callstack, list[k].request, requests, traces);
        found := found + duplicates;
      }
    }

    /** Walks the allocated blocks and counts those in the map. */
    method CountLeaks(list: seq<Block>, aggregate: bool, ghost requests: set<nat>, ghost traces: Traces)
      returns (leaksFound: nat, ghost after: set<nat>)
      requires DistinctRequests(list) && Holds(requests, traces) == true && requests <= traces.Keys
      modifies Footprint()
      ensures Holds(after, traces) == true && after <= requests
      ensures leaksFound == Report(list, traces, requests, aggregate)
      ensures after == ReportLeft(list, traces, requests, aggregate)
    {
      hide Holds, Footprint, Owns;
      assert list[0..] == list;
      leaksFound, after := 0, requests;
      var k := 0;
      while k < |list|
        invariant k <= |list| && after <= requests
        invariant Holds(after, traces) == true && Footprint() <= old(Footprint())
        invariant leaksFound + Report(list[k..], traces, after, aggregate) == Report(list, traces, requests, aggregate)
        invariant ReportLeft(list[k..], traces, after, aggregate) == ReportLeft(list, traces, requests, aggregate)
      {
        assert list[k..][1..] == list[k + 1..];
        if !list[k].isCrt {
          var callstack := Find(list[k].request, after, traces);
          if callstack != null {
            var found;
            found, after := ReportLeak(list, k, callstack, aggregate, after, traces);
            leaksFound := leaksFound + found;
          }
        }
        k := k + 1;
      }
    }

    /** Reports the leaks among the allocated blocks. With duplicates aggregated or not, the count is
        that of the blocks, not the library's own, that were in the map. With aggregation the first
        block of each size and call stack stays there, and without it everything does. */
    method ReportLeaks(list: seq<Block>, aggregate: bool, ghost traces: Traces) returns (leaksFound: nat)
      requires DistinctRequests(list) && blockMap.Valid() == true && Traced(traces) == true
      modifies Footprint()
      ensures blockMap.Valid() == true && Traced(traces) == true
      ensures leaksFound == Leaks(list, old(blockMap.contents.Keys))
      ensures forall request :: request in blockMap.contents.Keys <==>
        request in old(blockMap.contents.Keys)
        && !(aggregate && HasEarlier(list, traces, old(blockMap.contents.Keys), request))
    {
      ghost var requests := blockMap.contents.Keys;
      ReportCounts(list, traces, requests, aggregate);
      ReportLeaves(list, traces, requests, aggregate);
      ghost var after;
      leaksFound, after := CountLeaks(list, aggregate, requests, traces);
    }
  }
}
