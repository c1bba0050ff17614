# Models of five cores, with proofs

The project models the parts of the repository that carry state, loops and a hard invariant, in
Dafny, and proves what they promise. `dafny verify dfyconfig.toml` checks all of it.

| part | modules | program |
|---|---|---|
| leak detector: block map, call stack, leak report | `Listings`, `RedBlackTrees`, `MapStorage`, `BlockMaps`, `CallStacks`, `LeakReport` | `extlib/vld` |
| alpha-beta search with a transposition table, the board's rules and hash, and the evaluation | `HexBoards`, `AlphaBeta`, `ChessBoards`, `Evaluation` | `application/CrazyCat` |
| best-first search for the cat's way out | `EscapeSearch` | `application/CrazyCat` |
| flash cache translation layer | `FlashCache` (steps and their invariants), `Cleaning` (what a write puts in and takes out), `WideWrites` (runs of wider writes), `FlashSimulator` (the objects) | `application/SmiVenderTest/FerriSimulator` |
| script compiler and row pipeline | `Syntax`, `Compiler`, `ScriptParser`, `OperatorRunner`, `Words` (32-bit arithmetic), `Pipeline`, `ComboRunner`, `CompiledFilter` | `jcvos/script_engine` |
| singleton table | `SingleTone` | `jcvos/stdext` |

`Basics` holds what several of them use. Classes of the program that change their fields are classes
here, and each method is proved against a function of the old state. What is proved beyond one call
(runs, interleavings, round trips, exact conditions) is stated by lemmas about those functions.

Two habits of the contracts are there for the verifier only. `P(x) == true` says no more than `P(x)`;
it keeps the definition of `P` from being written out at every call. A `hide` at the head of a body
does the same inside it.

## Findings

What the code does not do, each with its exact condition:

- `GetInstance` may give two callers two objects of one GUID: it queries and registers without a
  lock over both. Two calls agree in every continuation exactly when the table holds the GUID as
  they start (`SingleTone.GetInstanceAgrees`).
- A filter with `not` may drop a row that its condition holds for: the operator `not` returns its own
  result, and a list of operators stops at the first that returns false. A row passes exactly when
  the condition holds and every `not` in it comes out true, and a row on which the list stopped is
  not counted by `INDEX` behind that `not` (`Compiler.PassesWhen`, `Compiler.IndexCounts`,
  `Compiler.NotMayDropARow`).
- The operators for `<` and `<=` are swapped. For operands of one type a comparison has its textbook
  meaning unless it is an inequality of equal numbers (`Compiler.ComparisonAgrees`). Operands of
  different integer types are compared in the one with the larger number, where a negative operand may be
  taken for a large one; `Compiler.TypedComparisonAgrees` has the exact condition.
- A comparison may not begin with a bracket inside a condition: the bracket is taken for that of a
  condition. A printed condition comes back from the parser exactly when none of its comparisons
  begins with one, and is a syntax error otherwise (`Syntax.CondRoundTrip`).
- Ranges are counted in 32 bits. A range is refused exactly when the product of difference and step has
  its sign bit set there (`Pipeline.RangeAccepted`): `0 : 100000 : 30000` is refused, and
  `0 : 100000 : -30000` is not. A range ends exactly when the greatest 32-bit integer that differs from its
  begin by a multiple of the largest power of two in its step is not before its end
  (`Pipeline.RangeEnds`): a zero step before the end never ends, nor does
  `2147483646 : 2147483647 : 2`. With a positive step it gives just its own numbers exactly when the first
  number not before its end is a 32-bit integer (`Pipeline.RangeRuns`, `Pipeline.RangesOverflow`).
- Two positions that come up five moves into a game have one hash key (`ChessBoards.KeysMeet`). In a
  search of depth five they are leaves, which are looked up and never entered. A deeper one enters them,
  and at depth six they are worth different scores: a true score of the one, entered, is taken for a
  false one of the other (`Evaluation.KeysMislead`). Entering an item keeps the table honest exactly when the replacement
  rules do not store it or it is honest for every position with its key (`AlphaBeta.EnterExactly`,
  `AlphaBeta.CollisionsHarmless`); every true bound does so exactly when key and player tell how deep a
  position is and what it is worth, leaves among themselves excepted, as long as nobody runs out of moves
  (`AlphaBeta.KeysTellExactly`, `ChessBoards.NobodyStuck`).
- A position whose hash key is zero hits the cleared transposition table. The cleared table is
  harmless exactly when that wrong hit says something true of every such position
  (`AlphaBeta.ClearedTable`).
- The flash cache can be driven to "cache full" by one-page writes exactly when it has fewer than six
  blocks and there is a home page for each of them (`FlashCache.FullOnlyWithFewBlocks`). By writes of two
  sectors, each across the border of two home blocks, it can be filled however many blocks it has, given
  enough home blocks (`WideWrites.AnyCacheFills`).
- The range, by which the flash cache decides when to begin a partial cleaning, may miss a home block that
  has pages in the cache: it stops counting a home block whose last page is cleaned, although earlier pages
  of it may have been written again meanwhile. That happens exactly when a cleaning under way ends with a
  write while a page that it has passed by is in the cache (`Cleaning.RangeMisses`,
  `Cleaning.FlagLost`).

## Model

The bodies of the board's methods are in application/CrazyCat/source/ChessBoard.cpp, a UTF-16 file: the two
hash tables on lines 296-318, the start 320-335, `Undo` 375-397, `IsValidMove` and `Move` 424-468, who has won
479-513, `MakeHash` 533-545. The rows about them cite their declarations, or the places that call them.

| member | source | states |
|---|---|---|
| BlockMaps.BlockMap.constructor | extlib/vld/source/vldutil.cpp:58-82 | the empty map is a valid one, with all nodes and stacks of its first chunk free |
| BlockMaps.BlockMap.RotateLeft | extlib/vld/source/vldutil.cpp:116-143 | a left rotation keeps links, parents and order, and moves exactly the two nodes and the inner subtree |
| BlockMaps.BlockMap.RotateRight | extlib/vld/source/vldutil.cpp:154-181 | the same for a right rotation |
| BlockMaps.BlockMap.Erase | extlib/vld/source/vldutil.cpp:193-366 | takes exactly the request out; the map stays valid (search order, no red-red edge, equal black height, parents, sentinel, free lists, maximum), and every other request keeps its stack object |
| BlockMaps.BlockMap.ChooseErasure | extlib/vld/source/vldutil.cpp:221-247 | the node to splice out has at most one child and is the node itself or its successor; the maximum follows |
| BlockMaps.BlockMap.LowerMax | extlib/vld/source/vldutil.cpp:225-236 | when the maximum goes, the next lower node, or nil, becomes the maximum |
| BlockMaps.BlockMap.Successor | extlib/vld/source/vldutil.cpp:243-246 | the leftmost node of the right subtree is the next one in order |
| BlockMaps.BlockMap.TakeOut | extlib/vld/source/vldutil.cpp:249-287 | splicing out removes one key and one stack from the listing; red nodes leave a balanced tree, black ones a tree short of one black node at the child |
| BlockMaps.BlockMap.EraseFixup | extlib/vld/source/vldutil.cpp:289-356 | from a tree short of one black node at a child, all cases on both sides restore a red-black tree over the same nodes |
| BlockMaps.BlockMap.EraseStepLeft | extlib/vld/source/vldutil.cpp:294-323 | one turn of the loop, child on the left: what is short of a black node is the root, where that settles it, or a node with more nodes under it |
| BlockMaps.BlockMap.EraseStepRight | extlib/vld/source/vldutil.cpp:324-353 | the same, child on the right |
| BlockMaps.BlockMap.RecycleApart | extlib/vld/source/vldutil.cpp:358-365 | node and cleared stack go onto the free lists, which stay as long as each other and disjoint from what is in use |
| BlockMaps.BlockMap.Find | extlib/vld/source/vldutil.cpp:378-399 | the stack of the request, or null exactly when it is not there; the path has at most 2 log2(n + 1) nodes |
| BlockMaps.BlockMap.Insert | extlib/vld/source/vldutil.cpp:414-551 | adds exactly the request, with an empty stack, and keeps the map valid; a request already there keeps its stack object, cleared |
| BlockMaps.BlockMap.FindPlace | extlib/vld/source/vldutil.cpp:428-450 | the shortcut past the maximum and the full descent both end at the one place where the request fits |
| BlockMaps.BlockMap.Grow | extlib/vld/source/vldutil.cpp:453-467 | a new chunk puts its nodes and stacks on the free lists and joins the chunk list |
| BlockMaps.BlockMap.Acquire | extlib/vld/source/vldutil.cpp:452-471 | a node and an empty stack are drawn from storage; whatever is in use is not touched |
| BlockMaps.BlockMap.InsertFixup | extlib/vld/source/vldutil.cpp:499-548 | every recolour and rotate case restores a red-black tree over the same nodes |
| BlockMaps.BlockMap.InsertStepLeft | extlib/vld/source/vldutil.cpp:503-523 | one turn of the loop below a left child: no red-red edge is left, or the only one is at a node with more nodes under it |
| BlockMaps.BlockMap.InsertStepRight | extlib/vld/source/vldutil.cpp:524-544 | the same below a right child |
| BlockMaps.BlockMap.ReadsBack | extlib/vld/source/vldutil.h:235-304 | a valid map, read as a value, is a textbook red-black search tree with exactly the keys of its contents |
| BlockMaps.BlockMap.LowTree | extlib/vld/source/vldutil.cpp:378-399 | the black height is at most log2(n + 1) |
| BlockMaps.BlockMap.StacksInUse | extlib/vld/source/vldutil.cpp:428-551 | no two requests share any storage |
| BlockMaps.BlockMap.Push | extlib/vld/source/vldutil.cpp:693-717 | pushing a frame on the stack of one request keeps the map valid |
| RedBlackTrees.BigEnough | extlib/vld/source/vldutil.cpp:414-551 | a red-black tree of black height b has at least 2^b - 1 keys |
| MapStorage.MakeChunk | extlib/vld/source/vldutil.cpp:455-464 | a chunk of distinct nodes and separate empty stacks, linked into two free lists |
| CallStacks.CallStack.constructor | extlib/vld/source/vldutil.cpp:557-564 | a new stack is empty |
| CallStacks.CallStack.Clear | extlib/vld/source/vldutil.cpp:673-678 | the stack is empty and keeps its chunks |
| CallStacks.CallStack.PushBack | extlib/vld/source/vldutil.cpp:693-717 | appends one frame, reusing chunks left from before a clear, with a new chunk only at capacity |
| CallStacks.CallStack.Get | extlib/vld/source/vldutil.cpp:649-660 | the frame at the index, found by walking the chunks |
| CallStacks.CallStack.Equals | extlib/vld/source/vldutil.cpp:602-631 | chunk-wise comparison is equality of the frame sequences |
| LeakReport.LeakDetector.HookFree | extlib/vld/source/vld.cpp:604-609 | the entry of the request goes, and every other request keeps its frames |
| LeakReport.LeakDetector.HookMalloc | extlib/vld/source/vld.cpp:625-636 | the request gets an entry with no frames yet, and every other request keeps its frames |
| LeakReport.LeakDetector.RecordFrame | extlib/vld/source/vld.cpp:546-592 | a frame of the stack trace is appended to that request's frames only |
| LeakReport.LeakDetector.EraseDuplicates | extlib/vld/source/vld.cpp:468-499 | takes out exactly the later blocks of the same size and call stack, and counts them |
| LeakReport.LeakDetector.EraseDuplicate | extlib/vld/source/vld.cpp:478-491 | one block of that walk is erased exactly when it is a duplicate |
| LeakReport.LeakDetector.ReportLeaks | extlib/vld/source/vld.cpp:872-944 | with or without aggregation, the number found is that of the blocks, not the library's own, that are in the map; with it, exactly the first block of each size and call stack stays there, without it all of them |
| LeakReport.DuplicatesCount | extlib/vld/source/vld.cpp:468-499 | exactly the listed duplicates go, and each takes one from the leaks still to be found |
| LeakReport.ReportCounts | extlib/vld/source/vld.cpp:872-896 | the report counts the leaks, aggregated or not |
| LeakReport.ReportLeaves | extlib/vld/source/vld.cpp:468-499 | with aggregation exactly the blocks with an earlier one of the same size and call stack leave the map, without it none |
| AlphaBeta.Board.Move | application/CrazyCat/source/robot_catcher.cpp:385 | a legal move puts a wall or steps the cat, passes the turn and is recorded; any other changes nothing |
| AlphaBeta.Board.Undo | application/CrazyCat/source/robot_catcher.cpp:400 | the last recorded move is taken back |
| AlphaBeta.UndoInvertsMove | application/CrazyCat/source/robot_catcher.cpp:385-400 | taking back a legal move gives the position before it |
| AlphaBeta.MinimaxOverMoves | application/CrazyCat/source/robot_catcher.cpp:371-474 | minimax is the best over the legal moves, whatever their order |
| AlphaBeta.PositionFixesPly | application/CrazyCat/source/robot_catcher.cpp:487 | a position with its side to move determines how many moves below the root it is |
| AlphaBeta.SlotsMeet | application/CrazyCat/source/robot_catcher.cpp:482 | two keys meet in a slot exactly for the same player and when they agree in the bits of the mask |
| AlphaBeta.ClearedTable | application/CrazyCat/source/robot_catcher.cpp:285 | the zeroed table is honest if and only if no position that the zero entry would answer has a zero key |
| AlphaBeta.HitAnswers | application/CrazyCat/source/robot_catcher.cpp:353-361 | a hit on an honest item meets the fail-soft contract |
| AlphaBeta.EnteredIsFound | application/CrazyCat/source/robot_catcher.cpp:480-531 | an item that the replacement rules let in is then found with its key, at its depth and below, by every window that it decides; any other leaves the table as it was |
| AlphaBeta.FoundWasEntered | application/CrazyCat/source/robot_catcher.cpp:480-501 | what is found was entered with that key, at that depth or a greater one |
| AlphaBeta.EnterExactly | application/CrazyCat/source/robot_catcher.cpp:503-531 | entering any item keeps an honest table honest if and only if it is not stored or is honest for every undecided position of the search with its player to move |
| AlphaBeta.CollisionsHarmless | application/CrazyCat/source/robot_catcher.cpp:480-501 | a true bound is that exactly when every position with its key is nearer to the root, or as near and bounded by it too |
| AlphaBeta.KeysTellExactly | application/CrazyCat/source/robot_catcher.cpp:480-531 | where nobody runs out of moves, no true bound ever does harm if and only if key and player tell ply and worth of every undecided position, leaves among themselves excepted |
| AlphaBeta.DifferentKeysTell | application/CrazyCat/source/robot_catcher.cpp:487 | that is so when different positions, not both leaves, have different keys |
| AlphaBeta.EnterKeepsHonest | application/CrazyCat/source/robot_catcher.cpp:503-531 | all replacement rules keep every item a true bound of its kind, at the depth its position is looked up with, when the keys tell ply and worth |
| AlphaBeta.MinimaxFits | application/CrazyCat/source/robot_catcher.cpp:195-197 | proper leaf scores make every minimax value of the search a proper score |
| AlphaBeta.MinimaxIsValue | application/CrazyCat/source/robot_catcher.cpp:371-474 | the minimax value is a number as long as nobody undecided runs out of moves |
| AlphaBeta.GenerateForCat | application/CrazyCat/source/robot_catcher.cpp:33-72 | lists each legal step of the cat once, an edge cell first if there is one |
| AlphaBeta.GenerateForCatcher | application/CrazyCat/source/robot_catcher.cpp:97-137 | lists each free cell once, by falling score, which is that of its history and distance |
| AlphaBeta.HistoryScoreIs | application/CrazyCat/source/robot_catcher.cpp:120 | the score is the difference of history and distance, as long as a signed field holds it |
| AlphaBeta.SortFalling | application/CrazyCat/source/robot_catcher.cpp:132-155 | a permutation by falling score |
| AlphaBeta.Robot.LookUpHashTab | application/CrazyCat/source/robot_catcher.cpp:480-501 | INT_MAX, or a score that meets the fail-soft contract |
| AlphaBeta.Robot.EnterHashTab | application/CrazyCat/source/robot_catcher.cpp:503-531 | only the slot of the key and player changes, by the replacement rules |
| AlphaBeta.Robot.EnterBound | application/CrazyCat/source/robot_catcher.cpp:403-421 | entering a true bound of an undecided position above the leaves keeps the table honest |
| AlphaBeta.Robot.EnterHistoryTab | application/CrazyCat/source/robot_catcher.cpp:533-539 | only the place of the move, in the half of its player, gains a credit |
| AlphaBeta.Robot.CreditOutweighs | application/CrazyCat/source/robot_catcher.cpp:537 | a credit counts more than one at each lower depth together |
| AlphaBeta.Robot.AlphaBetaSearch | application/CrazyCat/source/robot_catcher.cpp:335-478 | fail-soft against minimax for every window and every honest table: r <= alpha bounds it above, r >= beta below, between them r is it and the stored move attains it |
| AlphaBeta.Robot.TryMove | application/CrazyCat/source/robot_catcher.cpp:385-400 | a move, the search below it and its undoing: the board is as before and the score is that of the child |
| AlphaBeta.Robot.CatcherTurn | application/CrazyCat/source/robot_catcher.cpp:372-424 | the catcher's loop raises alpha, cuts at beta and meets the same contract |
| AlphaBeta.Robot.CatTurn | application/CrazyCat/source/robot_catcher.cpp:425-474 | the cat's loop lowers beta, cuts at alpha and meets the same contract |
| AlphaBeta.Robot.StartSearch | application/CrazyCat/source/robot_catcher.cpp:270-333 | with proper evaluations and a minimax value that is a number, the result is that value and the root move attains it |
| ChessBoards.IsCatcherWin | application/CrazyCat/source/ChessBoard.h:206 | the catcher has won exactly when the cat has no way out |
| ChessBoards.IsCatWin | application/CrazyCat/source/ChessBoard.h:207 | the cat has won exactly when it stands at the edge |
| ChessBoards.IsWinPlayer | application/CrazyCat/source/ChessBoard.h:209 | whether the game is decided for the player to move |
| ChessBoards.NobodyStuck | application/CrazyCat/source/ChessBoard.h:182-209 | with these rules nobody undecided runs out of moves below the root, if and only if the first player can move |
| ChessBoards.StepKeepsWayOut | application/CrazyCat/source/ChessBoard.h:206-209 | a step of a cat that has a way out leaves it one |
| ChessBoards.MakeHash | application/CrazyCat/source/ChessBoard.h:195 | the key of walls and cat, from both tables |
| ChessBoards.WallChanges | application/CrazyCat/source/ChessBoard.h:195-215 | a wall changes the key by its own table entry, wherever it stands among the others |
| ChessBoards.MoveChanges | application/CrazyCat/source/ChessBoard.h:195-216 | a move changes the key by that of the wall, or of the cells left and entered, so a placement has one key however it came about |
| ChessBoards.KeysMeet | application/CrazyCat/source/ChessBoard.h:215-216 | two different undecided positions, five moves from the start, with one key and one player to move |
| Evaluation.Evaluate | application/CrazyCat/source/robot_catcher.cpp:223-268 | ten times the distance of the way out, and the scores of the walls near the cat |
| Evaluation.NearerScoresMore | application/CrazyCat/source/robot_catcher.cpp:200-203 | a wall scores the more, the nearer it is; eight exactly beside the cat, nothing exactly from nine rows and columns on |
| Evaluation.WallsScoreLittle | application/CrazyCat/source/robot_catcher.cpp:247-265 | however many walls there are, they score at most 344 |
| Evaluation.EvaluatedFits | application/CrazyCat/source/robot_catcher.cpp:195-203 | every evaluation lies within the window that the search starts with; it is that of a lost cat exactly when there is no way out, and well below otherwise |
| Evaluation.LeavesFit | application/CrazyCat/source/robot_catcher.cpp:223-299 | the evaluations of all leaves of a search are proper scores |
| Evaluation.WinsAreWorth | application/CrazyCat/source/robot_catcher.cpp:340-348 | a won position is worth more to its winner the more depth is left, by one for each, and no evaluation of an undecided one comes between |
| Evaluation.CatcherWinsFound | application/CrazyCat/source/robot_catcher.cpp:335-478 | the minimax value is a catcher's win, with so much to spare, if and only if the catcher can force one within the depth with so many moves to spare |
| Evaluation.CatWinsFound | application/CrazyCat/source/robot_catcher.cpp:335-478 | the same for the cat |
| Evaluation.FindMove | application/CrazyCat/source/robot_catcher.cpp:270-333 | with this evaluation and the board's rules the whole search returns the minimax value, its root move attains it, and the value tells who can force a win within the depth and how soon; unless the first player has no move at all |
| Evaluation.RowsScoreMore | application/CrazyCat/source/robot_catcher.cpp:247-265 | a wall adds its score, wherever it stands among the others |
| Evaluation.KeysMislead | application/CrazyCat/source/robot_catcher.cpp:480-531 | with the board's own tables and evaluation the keys do not tell the worth in a search of depth six from the start |
| HexBoards.StepNearEdge | application/CrazyCat/source/CrazyCatEvaluator.cpp:11-22 | a step changes the distance to the edge by at most one |
| HexBoards.NeighboursTouch | application/CrazyCat/source/CrazyCatEvaluator.cpp:11-22 | the neighbours of a cell are the two beside it and the four shifted from it by half a column in the rows above and below |
| HexBoards.NeighboursBothWays | application/CrazyCat/source/CrazyCatEvaluator.cpp:11-22 | being neighbours goes both ways |
| EscapeSearch.WalkLongEnough | application/CrazyCat/source/CrazyCatEvaluator.cpp:35-49 | no walk to the edge is shorter than the distance of its start |
| EscapeSearch.DistanceIsExact | application/CrazyCat/source/CrazyCatEvaluator.cpp:40-50 | on the empty board the distance to the edge is the length of the shortest way out |
| EscapeSearch.FathersWalk | application/CrazyCat/source/CrazyCatEvaluator.cpp:35-49 | the fathers of a listed node are a legal walk from the cat as long as the node is deep |
| EscapeSearch.InsertedSorted | application/CrazyCat/source/CrazyCatEvaluator.cpp:121-132 | linking in before the first larger estimate keeps the list sorted |
| EscapeSearch.ReachIsListed | application/CrazyCat/source/CrazyCatEvaluator.cpp:107-145 | once every listed node is expanded, every cell that a walk reaches is listed |
| EscapeSearch.NoEscape | application/CrazyCat/source/CrazyCatEvaluator.cpp:142-148 | then, with no edge cell listed, there is no way out |
| EscapeSearch.AtMostCells | application/CrazyCat/source/CrazyCatEvaluator.h:59-65 | a list without repetition has at most as many nodes as the board has cells |
| EscapeSearch.Evaluator.NewNode | application/CrazyCat/source/CrazyCatEvaluator.h:59-65 | claims the node of a cell the first time, and only then |
| EscapeSearch.Evaluator.Reset | application/CrazyCat/source/CrazyCatEvaluator.cpp:83-90 | no cell is claimed and the list is empty |
| EscapeSearch.Evaluator.Insert | application/CrazyCat/source/CrazyCatEvaluator.cpp:121-132 | the node is linked in behind the closed one, whose front part stays; the list stays linked, sorted and without repetition |
| EscapeSearch.Evaluator.AddNode | application/CrazyCat/source/CrazyCatEvaluator.cpp:113-132 | a neighbour is claimed and listed at most once, with estimate depth plus distance |
| EscapeSearch.Evaluator.Expand | application/CrazyCat/source/CrazyCatEvaluator.cpp:109-141 | afterwards every neighbour of the closed node is listed, or an edge cell was found |
| EscapeSearch.Evaluator.Advance | application/CrazyCat/source/CrazyCatEvaluator.cpp:142-144 | the next open node, or the end of the list and then no way out |
| EscapeSearch.Evaluator.StartSearch | application/CrazyCat/source/CrazyCatEvaluator.cpp:93-149 | ends; MAX_DISTANCE exactly when there is no way out, else the length of one, no shorter than the distance of the start; a free edge cell beside the cat is found at once |
| FlashCache.AppendKeeps | application/SmiVenderTest/FerriSimulator/source/sim_cache_mode.cpp:38-45 | programming an unlinked home page keeps the invariant, and the open block has a live page |
| FlashCache.UnlinkKeeps | application/SmiVenderTest/FerriSimulator/source/sim_cache_mode.cpp:312-331 | taking a home page out of the cache keeps link table and pages inverse, the counts right and the lists a partition |
| FlashCache.ProgramThenInvalidate | application/SmiVenderTest/FerriSimulator/source/sim_cache_mode.cpp:210-223 | program, invalidate, link in the order of the code is unlink and append |
| FlashCache.WritePageIs | application/SmiVenderTest/FerriSimulator/source/sim_cache_mode.cpp:205-237 | a page write is unlink and append, and opens a spare when the block is full; it fails exactly when there is none |
| FlashCache.WritePageKeeps | application/SmiVenderTest/FerriSimulator/source/sim_cache_mode.cpp:205-237 | a page write keeps the whole invariant |
| FlashCache.CleanPageKeeps | application/SmiVenderTest/FerriSimulator/source/sim_cache_mode.cpp:333-344 | cleaning a page keeps the whole invariant, the count of flagged home blocks included |
| FlashCache.WritePageFresh | application/SmiVenderTest/FerriSimulator/source/sim_cache_mode.cpp:225-235 | after a write the oldest cached block has a live page |
| FlashCache.OldestIsLive | application/SmiVenderTest/FerriSimulator/source/sim_cache_mode.cpp:55-64 | the first valid page of the oldest block is found, and is a home page linked to that block |
| FlashCache.CleanInRange | application/SmiVenderTest/FerriSimulator/source/sim_cache_mode.cpp:269-295 | every address that a cleaning task touches is a home page, inside one home block |
| FlashCache.StandsAtQuarter | application/SmiVenderTest/FerriSimulator/source/sim_cache_mode.cpp:271-300 | a task left unfinished is a partial one and stands at a quarter of a home block |
| FlashCache.CleanedKeeps | application/SmiVenderTest/FerriSimulator/source/sim_cache_mode.cpp:239-300 | choosing and carrying on the task keeps the state ready: no task exactly when there is no clean address |
| FlashCache.SectorWriteKeeps | application/SmiVenderTest/FerriSimulator/source/sim_cache_mode.cpp:189-304 | every write that is carried out keeps the whole invariant; the range error comes exactly for a last page beyond the table |
| FlashCache.UnlinkPrograms | application/SmiVenderTest/FerriSimulator/source/sim_cache_mode.cpp:322-330 | taking a page out leaves the number of pages programmed |
| FlashCache.SectorWritePrograms | application/SmiVenderTest/FerriSimulator/source/sim_cache_mode.cpp:196-237 | a write programs exactly the pages it covers, erased and cached blocks counted up; cleaning programs none |
| FlashCache.UnlinkPotential | application/SmiVenderTest/FerriSimulator/source/sim_cache_mode.cpp:312-331 | taking a page out loses no potential, and gains one from the oldest block |
| FlashCache.WritePagePotential | application/SmiVenderTest/FerriSimulator/source/sim_cache_mode.cpp:205-237 | a page write loses at most one of the potential |
| FlashCache.CleanPagesPotential | application/SmiVenderTest/FerriSimulator/source/sim_cache_mode.cpp:289-295 | cleaning pages loses none, and gains one if they include a page of the oldest block |
| FlashCache.SafeStep | application/SmiVenderTest/FerriSimulator/source/sim_cache_mode.cpp:189-304 | a safe state takes any one-page write and is safe after it |
| FlashCache.WriteOneIsSectorWrite | application/SmiVenderTest/FerriSimulator/source/sim_cache_mode.cpp:189-304 | the one-page writes of the run theorems are the sector writes that touch one page |
| FlashCache.PreparedReady | application/SmiVenderTest/FerriSimulator/source/sim_cache_mode.cpp:167-187 | the simulator as set up is ready, with all pages of all blocks as its potential |
| FlashCache.NeverFull | application/SmiVenderTest/FerriSimulator/source/sim_cache_mode.cpp:225-229 | with six blocks or more no run of one-page writes ever finds the cache full |
| FlashCache.FullOnlyWithFewBlocks | application/SmiVenderTest/FerriSimulator/source/sim_cache_mode.cpp:225-287 | some run of one-page writes finds the cache full if and only if there are fewer than six blocks and at least as many home pages as blocks |
| Cleaning.WritePagesPut | application/SmiVenderTest/FerriSimulator/source/sim_cache_mode.cpp:205-237 | writing pages puts exactly these into the cache and flags exactly their home blocks |
| Cleaning.CleanPagesTakeOut | application/SmiVenderTest/FerriSimulator/source/sim_cache_mode.cpp:333-344 | cleaning pages of a home block takes exactly these out, and takes the flag back exactly at its end |
| Cleaning.CleanedSo | application/SmiVenderTest/FerriSimulator/source/sim_cache_mode.cpp:239-300 | with four to nine spares the home block of the oldest live page is cleaned to its end, with more, up to nine and one for each quarter block in the range, its first quarter, and otherwise nothing; a task under way goes on by a quarter, or to the end with four to nine |
| Cleaning.SectorWriteDoes | application/SmiVenderTest/FerriSimulator/source/sim_cache_mode.cpp:189-304 | a host write puts the pages that it covers into the cache and then cleans by those rules |
| Cleaning.SectorWriteQueues | application/SmiVenderTest/FerriSimulator/source/sim_cache_mode.cpp:226-331 | blocks are used in the order in which they were erased: a write changes the order of cached blocks and spares only by moving those it erases to the end |
| Cleaning.PreparedOrder | application/SmiVenderTest/FerriSimulator/source/sim_cache_mode.cpp:174-177 | at first the blocks are used by number |
| Cleaning.RangeMisses | application/SmiVenderTest/FerriSimulator/source/sim_cache_mode.cpp:117-133 | the range misses a home block with pages in the cache if and only if a cleaning under way ends while a page that it has passed by is in the cache |
| Cleaning.FlagLost | application/SmiVenderTest/FerriSimulator/source/sim_cache_mode.cpp:117-133 | four one-page writes behind which it does |
| WideWrites.LiveFits | application/SmiVenderTest/FerriSimulator/source/sim_cache_mode.cpp:38-53 | there are at most as many home pages in the cache as it has pages |
| WideWrites.CleanedSparse | application/SmiVenderTest/FerriSimulator/source/sim_cache_mode.cpp:268-300 | when no home block has two pages in the cache, cleaning takes out at most one |
| WideWrites.AcrossStep | application/SmiVenderTest/FerriSimulator/source/sim_cache_mode.cpp:189-304 | a write of two sectors across a new border leaves at least one more home page in the cache |
| WideWrites.AnyCacheFills | application/SmiVenderTest/FerriSimulator/source/sim_cache_mode.cpp:222-300 | whatever the number of blocks, given enough home blocks a run of such writes ends with "cache full" |
| FlashSimulator.CacheBlock.Program | application/SmiVenderTest/FerriSimulator/source/sim_cache_mode.cpp:38-45 | appends the home page and counts it |
| FlashSimulator.CacheBlock.InvalidPage | application/SmiVenderTest/FerriSimulator/source/sim_cache_mode.cpp:47-53 | the slot is dead and the valid count one less |
| FlashSimulator.CacheBlock.FirstValidPage | application/SmiVenderTest/FerriSimulator/source/sim_cache_mode.cpp:55-64 | the home page in the first live slot of a block that has one |
| FlashSimulator.LinkTable.SetCacheData | application/SmiVenderTest/FerriSimulator/source/sim_cache_mode.cpp:91-102 | links the home page, and counts its home block when it was not flagged |
| FlashSimulator.LinkTable.GetCacheData | application/SmiVenderTest/FerriSimulator/source/sim_cache_mode.cpp:104-110 | the place that the home page links to |
| FlashSimulator.LinkTable.Clean | application/SmiVenderTest/FerriSimulator/source/sim_cache_mode.cpp:117-133 | unlinks the home page; the last page of a home block also takes the block's flag back |
| FlashSimulator.SimCacheMode.constructor | application/SmiVenderTest/FerriSimulator/source/sim_cache_mode.cpp:167-187 | the objects set up are the prepared state |
| FlashSimulator.SimCacheMode.InvalidCachePage | application/SmiVenderTest/FerriSimulator/source/sim_cache_mode.cpp:312-331 | the objects carry out the step of the same name |
| FlashSimulator.SimCacheMode.WriteHomePage | application/SmiVenderTest/FerriSimulator/source/sim_cache_mode.cpp:205-237 | the objects carry out a page write, or report a full cache exactly when the step does |
| FlashSimulator.SimCacheMode.FindHblock | application/SmiVenderTest/FerriSimulator/source/sim_cache_mode.cpp:346-356 | the home block of the first live page of the oldest block |
| FlashSimulator.SimCacheMode.ChooseTask | application/SmiVenderTest/FerriSimulator/source/sim_cache_mode.cpp:240-266 | the three thresholds choose the task |
| FlashSimulator.SimCacheMode.Clean | application/SmiVenderTest/FerriSimulator/source/sim_cache_mode.cpp:239-300 | the objects carry out the cleaning of a write |
| FlashSimulator.SimCacheMode.SectorWrite | application/SmiVenderTest/FerriSimulator/source/sim_cache_mode.cpp:189-304 | the objects carry out a whole write, with the same errors |
| Syntax.ExpRoundTrip | jcvos/script_engine/source/syntax_parser.cpp:1155-1346 | a printed expression comes back from the parser as the same tree, which stops at the first token that does not go on with it |
| Syntax.TwoOperators | jcvos/script_engine/source/syntax_parser.cpp:1155-1203 | of two operators between factors the one that binds tighter takes the middle factor, bit operators before products before sums; of two alike the first |
| Syntax.PrintedParses | jcvos/script_engine/source/syntax_parser.cpp:1313-1346 | the same at every level of precedence |
| Syntax.ParseYields | jcvos/script_engine/source/syntax_parser.cpp:1219-1346 | whatever the parser accepts is, brackets aside, exactly the tokens of the tree |
| Syntax.NoShorter | jcvos/script_engine/source/syntax_parser.cpp:1257-1261 | no token list that parses to a tree is shorter than its print, so the print has as few brackets as possible |
| Syntax.CondRoundTrip | jcvos/script_engine/source/syntax_parser.cpp:1008-1099 | a printed condition comes back if and only if no comparison in it begins with a bracket, and is a syntax error otherwise |
| Syntax.CondsLeftToRight | jcvos/script_engine/source/syntax_parser.cpp:1205-1217 | `and` and `or` are of one level, taken from left to right |
| Syntax.NotBindsTighter | jcvos/script_engine/source/syntax_parser.cpp:1022-1032 | `not` applies to what stands next to it only |
| Syntax.BracketFails | jcvos/script_engine/source/syntax_parser.cpp:1015-1020 | a bracket at the head of a condition around an expression is a syntax error |
| ScriptParser.Parser.MatchFactor | jcvos/script_engine/source/syntax_parser.cpp:1219-1311 | the parser's method is the parse function, and emits the operators of the tree |
| ScriptParser.Parser.MatchVariable | jcvos/script_engine/source/syntax_parser.cpp:951-1000 | the same for a variable and its members |
| ScriptParser.Parser.MatchBinaryOperate | jcvos/script_engine/source/syntax_parser.cpp:1313-1346 | the same for the loop over the operators of a level |
| ScriptParser.Parser.MatchRelationExp | jcvos/script_engine/source/syntax_parser.cpp:1040-1099 | the same for a comparison, operands swapped for `>` and `>=` |
| ScriptParser.Parser.MatchRelationFactor | jcvos/script_engine/source/syntax_parser.cpp:1008-1038 | the same for brackets and `not` in a condition |
| ScriptParser.Parser.CompileCondition | jcvos/script_engine/source/syntax_parser.cpp:731-748 | whatever the tokens, the condition of a filter is found exactly when the parse function finds one, and is compiled as the emit function says |
| ScriptParser.Parser.AddOp | jcvos/script_engine/source/if_then_else.cpp:207-226 | an operator goes to the outermost sequence that its dependency allows |
| Compiler.AddKeeps | jcvos/script_engine/source/if_then_else.cpp:100-121 | adding an operator keeps every source before its user, in the same or an enclosing sequence; no hoisted operator depends on the inport |
| Compiler.TwoDependencies | jcvos/script_engine/source/operate_base.h:75-85 | the dependency, the largest of the sources, is that of the script or of the statement |
| Compiler.HoistedExactly | jcvos/script_engine/source/if_then_else.cpp:207-226 | an operator is run once for all rows if and only if neither it nor any of its sources asks for the row or its number |
| Compiler.EmitCondKeeps | jcvos/script_engine/source/syntax_parser.cpp:1008-1099 | compiling a condition keeps all that |
| Compiler.ComparisonAgrees | jcvos/script_engine/source/expression_op.h:388-404 | for operands of one type the compiled comparison is the textbook one if and only if it is an equality or the operands differ |
| Compiler.TypedComparisonAgrees | jcvos/script_engine/source/expression_op.cpp:353-380 | for operands of any two integer types, the compiled comparison is the textbook one if and only if: with a signed larger type or no negative operand, it is an equality or the operands differ; else the other operand is not, or is, beyond what the negative one is taken for |
| Compiler.ListRuns | jcvos/script_engine/source/if_then_else.cpp:43-60 | a list is completed exactly when every `not` in it comes out true, and then every operator holds its value |
| Compiler.OuterSame | jcvos/script_engine/source/if_then_else.cpp:217-220 | what is hoisted has the same value for every row |
| Compiler.ScriptRuns | jcvos/script_engine/source/if_then_else.cpp:43-60 | running the hoisted operators once gives each its value for all rows |
| Compiler.RowRuns | jcvos/script_engine/source/if_then_else.cpp:258-262 | then running the rest on a row gives every operator its value for the row |
| Compiler.RowsCount | jcvos/script_engine/source/expression_op.h:307-326 | after any rows, completed or not, the hoisted values stand and each counter holds the rows it was reached on |
| Compiler.IndexCounts | jcvos/script_engine/source/syntax_parser.cpp:1269-1283 | INDEX stands at the number of rows on which every `not` compiled before it came out true |
| Compiler.ExpValue | jcvos/script_engine/source/syntax_parser.cpp:1219-1346 | the operators emitted for an expression compute it |
| Compiler.TwoOperatorsValue | jcvos/script_engine/source/syntax_parser.cpp:1155-1203 | what is compiled from tokens with two operators applies the one that binds tighter first, and of two alike the first |
| Compiler.CondValue | jcvos/script_engine/source/syntax_parser.cpp:1008-1099 | the operators emitted for a condition compute it |
| Compiler.CondNots | jcvos/script_engine/source/syntax_parser.cpp:1022-1032 | the emitted `not` operators come out true exactly when those of the condition do |
| Compiler.PassesWhen | jcvos/script_engine/source/expression_op.h:321-326 | behind any rows, a row passes a filter if and only if the condition holds and every `not` in it comes out true, with the numbers that the counters have come to |
| Compiler.PassesAlone | jcvos/script_engine/source/expression_op.h:321-326 | without INDEX, or without `not`, each row is tested on its own and with its true number |
| Compiler.HoistingPreservesMeaning | jcvos/script_engine/source/if_then_else.cpp:207-226 | without `not`, hoisting changes nothing: a row passes if and only if the condition holds for it and its number |
| Compiler.FiltersCombine | jcvos/script_engine/source/expression_op.h:270-326 | without `not` in them, a filter for `l and r` lets through what both let through, one for `l or r` what either does, and one for `not l`, without INDEX, what that for `l` does not |
| Compiler.NotMayDropARow | jcvos/script_engine/source/expression_op.h:321-326 | a condition and a row, behind any other rows, that it holds for and that is dropped |
| OperatorRunner.Operators.InvokeOpList | jcvos/script_engine/source/if_then_else.cpp:43-60 | runs the list as the function says, and returns false for an empty one |
| OperatorRunner.Operators.InvokeOp | jcvos/script_engine/source/expression_op.cpp:151-182 | an operator leaves the result of its sources behind; only `not` returns it |
| Pipeline.RangeEnds | jcvos/script_engine/source/vector_maker.cpp:25-65 | a range ends if and only if the greatest 32-bit integer congruent to its begin, modulo the power of two in its step, is not before its end |
| Pipeline.RangeAccepted | jcvos/script_engine/source/vector_maker.cpp:50-51 | a range is accepted if and only if difference times step, cut to 32 bits, is not negative; when the product fits, if and only if the step leads towards the end |
| Pipeline.EndlessRange | jcvos/script_engine/source/vector_maker.cpp:54-65 | a range that does not end asks to be run again after every run |
| Pipeline.RangesOverflow | jcvos/script_engine/source/vector_maker.cpp:50-65 | four ranges: two that never end, a proper one that is refused, and one in the wrong direction that is accepted and ends |
| Words.StepsStay | jcvos/script_engine/source/vector_maker.cpp:63 | steps that wrap around never lead beyond the greatest number congruent to the first |
| Words.StepsReach | jcvos/script_engine/source/vector_maker.cpp:63 | and they reach it |
| Words.WrapProduct | jcvos/script_engine/source/vector_maker.cpp:51 | a product comes to the same 32 bits whether its factor was cut before or not |
| Pipeline.InvokeWorks | jcvos/script_engine/source/if_then_else.cpp:265-274 | a state operator that wants more has less work left |
| Pipeline.DrainKeeps | jcvos/script_engine/source/if_then_else.cpp:265-276 | running the state operator moves output from the future into the queue |
| Pipeline.TakeKeeps | jcvos/script_engine/source/atom_operates.cpp:324-330 | taking a row is one step of the flat map |
| Pipeline.InvokeKeeps | jcvos/script_engine/source/if_then_else.cpp:243-277 | invoking any statement at any time leaves what the pipeline will put out, and uses up events if it gets anything done |
| Pipeline.QuietIsDone | jcvos/script_engine/source/if_then_else.cpp:139 | a quiet pipeline will put out nothing more |
| Pipeline.AnyOrder | jcvos/script_engine/source/if_then_else.cpp:123-142 | whatever the interleaving: no row is lost, doubled or reordered, and once quiet the table is complete |
| Pipeline.FreshIsComposed | jcvos/script_engine/source/combost_op.cpp:121-151 | a fresh pipeline puts out the composition of the statements' flat maps |
| Pipeline.RangeRuns | jcvos/script_engine/source/vector_maker.cpp:25-65 | a range with a positive step ends and gives just its numbers in order, if and only if the first number not before its end is a 32-bit integer |
| Pipeline.NumbersAre | jcvos/script_engine/source/vector_maker.cpp:54-65 | these are the numbers before the end that are a number of steps from the first |
| Pipeline.TableRuns | jcvos/script_engine/source/combost_op.cpp:44-61 | a table gives its rows in order |
| Pipeline.FilterSelects | jcvos/script_engine/source/atom_operates.cpp:275-294 | a filter gives the rows that the operators run through and that meet its condition, in order, each tested with what the operators hold behind the rows before it |
| Pipeline.FeaturePutsOut | jcvos/script_engine/source/if_then_else.cpp:265-274 | a feature puts out for a row what its runs push, one after the other, each with the memory of the run before |
| Pipeline.FeatureFlows | jcvos/script_engine/source/if_then_else.cpp:243-277 | and so from row to row |
| ComboRunner.SingleSt.PopupResult | jcvos/script_engine/source/if_then_else.cpp:279-286 | the first row of the outport, taken out |
| ComboRunner.SingleSt.InvokeStateOp | jcvos/script_engine/source/if_then_else.cpp:265-274 | the state operator runs only on an empty outport |
| ComboRunner.SingleSt.Invoke | jcvos/script_engine/source/if_then_else.cpp:243-277 | a statement carries out the step of the pipeline, and tells whether rows wait |
| ComboRunner.Combo.Collect | jcvos/script_engine/source/combost_op.cpp:121-151 | the collector takes one row |
| ComboRunner.Combo.Round | jcvos/script_engine/source/if_then_else.cpp:129-139 | a round that returns true leaves less to do, and one that returns false leaves every outport empty and all work done |
| ComboRunner.Combo.Invoke | jcvos/script_engine/source/if_then_else.cpp:123-142 | ends, quiet, with the composition of the statements collected in order |
| CompiledFilter.SelectedIsPassing | jcvos/script_engine/source/atom_operates.cpp:275-294 | the filter's statement, whose operators go on from row to row, selects what the compiled operators let through |
| CompiledFilter.PassingIs | jcvos/script_engine/source/expression_op.h:307-326 | those are the rows that the condition and every `not` in it hold for, with the numbers that the counters have come to; without `not`, those that the condition holds for |
| CompiledFilter.SelectRows | jcvos/script_engine/source/syntax_parser.cpp:731-748 | a table run through any compiled filter: the rows collected are those the compiled operators let through, in order, which are those that condition and `not` operators hold for |
| SingleTone.CalculateHash | jcvos/stdext/source/single_tone.cpp:157-164 | the 16-bit sum of the eight words gives the home slot |
| SingleTone.NeverOverwritten | jcvos/stdext/source/single_tone.cpp:182-187 | no step changes a slot that is taken |
| SingleTone.StoresOnlyItsOwn | jcvos/stdext/source/single_tone.cpp:182-187 | a step changes at most one slot, a free one, which takes the object of the thread that has thereby added it |
| SingleTone.NextKeeps | jcvos/stdext/source/single_tone.cpp:166-224 | every step of every thread keeps each object reachable from its home slot without a gap |
| SingleTone.RunKeeps | jcvos/stdext/source/single_tone.cpp:166-224 | so does every interleaving |
| SingleTone.RegistrationStores | jcvos/stdext/source/single_tone.cpp:166-197 | in every interleaving a registration ends with its object in the table and reports success, or with a full table and reports failure |
| SingleTone.GetInstanceStores | jcvos/stdext/include/single_tone.h:76-89 | in every interleaving GetInstance ends with an object that is in the table, or with its own and a full table |
| SingleTone.OwnObjectOnce | jcvos/stdext/source/single_tone.cpp:166-197 | an object that only one call has is in the table exactly once behind a success, and not at all before and behind a failure |
| SingleTone.CallsEnd | jcvos/stdext/source/single_tone.cpp:180-221 | every call ends, after at most 512 turns of its thread for each pass over the table |
| SingleTone.QueriesAgree | jcvos/stdext/source/single_tone.cpp:199-224 | two queries for one GUID that succeed, whenever they run, return the same object |
| SingleTone.LookingFinds | jcvos/stdext/source/single_tone.cpp:206-221 | a call under way while the GUID is in the table ends with its first object, however the others go on |
| SingleTone.QueryAfterRegistration | jcvos/stdext/source/single_tone.cpp:199-224 | a query that starts after a registration of the GUID has reported success finds an object, within 512 turns of its thread |
| SingleTone.GetInstanceAfterRegistration | jcvos/stdext/include/single_tone.h:76-89 | so does GetInstance, which then creates none |
| SingleTone.GetInstanceRaces | jcvos/stdext/include/single_tone.h:76-89 | an interleaving in which two callers get two objects of one GUID |
| SingleTone.GetInstanceAgrees | jcvos/stdext/include/single_tone.h:76-89 | two calls for one GUID return the same object in every continuation if and only if the table holds the GUID as they start |
| SingleTone.Manager.RegisterStInstance | jcvos/stdext/source/single_tone.cpp:166-197 | the object goes to the first free slot from home on; fails only when the table is full |
| SingleTone.Manager.QueryStInstance | jcvos/stdext/source/single_tone.cpp:199-224 | the first object of the GUID, and nothing exactly when there is none |

## Left out

- AlphaBeta.Robot.StartSearch: that the keys tell ply and worth (`KeysTell`), and that a zero key does no harm, are asked of the search's hash; both are conditions on the numbers in the board's two tables. `Evaluation.KeysMislead` shows that the first fails at depth six from the start; for which roots and depths it holds is not part of this model. The board is a set of walls, a cat and a turn; redo, set-up and files of ChessBoard.cpp are left out.
- The sort of the catcher's moves by `qsort` is an insertion sort; the order of equal scores is that of the sort.
- Search cancellation, the progress counters and the use of the history table beyond the move order.
- Shortest ways out: a cell is claimed when it is first generated, so the distance found is the length of some way out and need not be the shortest one.
- FlashCache.NeverFull: speaks of writes that touch one page each; for wider ones no number of blocks will do (`WideWrites.AnyCacheFills`), and how many home blocks it takes to fill the cache with them is not stated.
- FlashSimulator.LinkTable.SetCacheData: the number of a home block is an unbounded integer; the code keeps it in 16 bits, so that from 65536 home blocks on several of them share a flag.
- FlashSimulator.LinkTable.Clean: the same.
- Re-running `Prepare`, the property setters, the busy time, and what a write leaves behind when it fails with "cache full".
- The page count of a block is any multiple of four; the address arithmetic of the code asks for a power of two.
- ScriptParser.Parser.MatchFactor: `()` and a dot without a word are syntax errors here; the code goes on with a null operator for the first and with the inport for the second. String constants, file names, nested `{}` combos and the `:` of ranges inside an expression are not modelled.
- Table parameters, assignments, features' parameters, `help`, error recovery and reference counting of the script parser.
- Compiler.PassesWhen: arithmetic is an uninterpreted function on integers and comparisons in it are those of operands of one type; types, their conversion and floating point are left out, but for comparisons of integers in `Compiler.TypedComparisonAgrees`.
- OperatorRunner.Operators.InvokeOp: the deduction of the result type and the conversion of the operands on the first invocation are left out.
- LeakReport.LeakDetector.HookMalloc: the entry and the frames are two methods; walking the stack, the test whether the detector is enabled, and `hookrealloc`, which is a free and a malloc, are left out.
- LeakReport.LeakDetector.RecordFrame: one frame; the loop over the frames and its limit belong to the stack walk.
- The text of the leak report, symbol lookup, and the heap and its locks; the allocated list is a sequence of blocks with distinct request numbers.
- The critical section of the singleton query: without it there are more interleavings, and the theorems hold for them. Entry lists and `CleanUp` are left out.
- Machine widths where no value can leave them: request numbers, counters and scores are unbounded integers; hashes, links, ranges and the history score have their width. Signed sums and products of ranges are taken to wrap around; the language leaves that open.
- Dialogs, device access, database, file and logging code.
