# 8-puzzle: breadth-first solver and game rules

A Dafny model of a browser 8-puzzle, made of two parts.

The solver (`solver.js`):
- It builds the whole state graph eagerly: every permutation of 0..8 is a node, and its edges are the boards one blank move away.
- It answers `solvePuzzle(start, goal)` with a breadth-first search that marks nodes and records parent links.
- It clears that per-node scratch after every search.

The game page (`script.js`):
- It keeps the board in an array.
- It lets the player drag a tile onto an adjacent blank, and tests for the solved board `[1, 2, 3, 4, 5, 6, 7, 8, 0]`.
- It deals boards with a Fisher–Yates shuffle.
- It shows a hint taken from the second state of the solver's path.

The modules follow the program:
- `Board`: cell sequences, `indexOf`, swapping, and the JavaScript `Set.add` on an insertion-ordered set.
- `Grid`: JavaScript `%` and `Math.floor`, and `isAdjacent`.
- `StateCodec`: the numeric key (`parseInt` of the digits) and its nine-digit text (`toString().padStart(9, "0")`).
- `EdgeGeneration`: `generateEdgesForNode`.
- `GraphBuilder`: `setupGraph`.
- `Search`: the class `Graph` with `resetGraph` and `solvePuzzle`.
- `Game`: the class `Game` holding the board array, with `swap`, `checkWin`, `onDrop`, `shuffleArray` and `reset`.
- `Hints`: `showHint`.

Some modelling conventions:
- A key is the sequence of its nine digits. The round-trip lemmas of `StateCodec` show that this indexing and the numeric one are the same.
- A JavaScript `Map` or `Set` becomes an insertion-ordered sequence, or a map plus the sequence of its keys, so iteration order is kept.
- `Math.random()` becomes a sequence of draws `picks`, with `0 <= picks[i] <= i`.

## Model

| member | source | states |
|---|---|---|
| Board.IndexOf | script.js:215 | `indexOf`: the first position holding the value, and -1 exactly when the value is absent |
| Board.SwapPermutation | solver.js:24-28 | exchanging two cells keeps the multiset of values, so a permutation of 0..8 stays one |
| Board.SwapTwice | script.js:151-155 | swapping the same two cells twice restores the board |
| Board.PermutationHasAll | script.js:215 | a valid board holds every value 0..8, so its blank is always found |
| Board.Add | solver.js:29 | `Set.add`: the result holds the old values plus the new one and stays duplicate-free; a new value is appended at the end, and a value already present leaves the set and its order unchanged |
| Grid.JsRem | script.js:138 | JavaScript `%`: for a non-negative dividend it is the ordinary remainder in 0..m-1; for a negative one it lies in -(m-1)..0 |
| Grid.JsRemNegate | script.js:138 | `%` truncates toward zero: `(-a) % m` is `-(a % m)`, which with `JsRem` fixes the value for every dividend |
| Grid.IsAdjacent | script.js:137-143 | `isAdjacent` is false when both cells are equal |
| Grid.AdjacentOnGrid | script.js:137-143 | on cells 0..8, adjacency is same row with neighbouring columns, or same column with neighbouring rows |
| Grid.AdjacentSymmetric | script.js:137-143 | `isAdjacent(a, b) == isAdjacent(b, a)` for all integers |
| Grid.NotAdjacentToMissing | script.js:215-218 | the index -1 returned for a missing blank is adjacent to no cell |
| Grid.AdjacentCount | script.js:137-143 | a corner has 2 adjacent cells, an edge centre 3, the centre 4 |
| StateCodec.EncodeDecimal | script.js:210 | `parseInt` of a number's decimal text gives the number back |
| StateCodec.EncodeLeadingZeros | solver.js:71 | `parseInt` ignores leading zeros, so a board with the blank in cell 0 gets the number of its last eight digits |
| StateCodec.EncodeBound | solver.js:71 | `parseInt` of k digits is below 10^k |
| StateCodec.ToDecimal | solver.js:9 | `toString`: a non-empty digit sequence with no leading zero |
| StateCodec.PadStart | solver.js:9 | `padStart(w, "0")`: the result has length max(len, w), ends with the text, and holds zeros before it |
| StateCodec.Decode | solver.js:9 | a number below 10^9 has a nine-digit padded text |
| StateCodec.DecodeEncode | solver.js:9 | the padded text of a board's number is the board, also when the blank is in cell 0; the number is below 10^9 |
| StateCodec.EncodeDecode | solver.js:71 | every number below 10^9 is the number of its own padded text, so keys and boards correspond one to one |
| StateCodec.PadDecimal | solver.js:9 | padding the decimal text of a digit sequence's number to its length gives the digits back, leading zeros included |
| StateCodec.LeadingBlankLost | script.js:217 | the unpadded text of a board whose first cell is the blank has eight digits and no 0 |
| StateCodec.GoalKey | solver.js:118 | the default goal 123456780 is the number of the solved board, and decodes to it |
| EdgeGeneration.GenerateEdgesForNode | solver.js:6-33 | the returned set is exactly the neighbours of the padded node, with no duplicates |
| EdgeGeneration.MovesOf | solver.js:10-31 | the loop over the four directions collects exactly the boards with the blank exchanged with an adjacent cell |
| EdgeGeneration.Target | solver.js:20-23 | a direction either leaves the grid (-1) or lands on a cell adjacent to the blank |
| EdgeGeneration.MoveTarget | solver.js:11-23 | the row and column arithmetic lands on the moved cell, and a missing blank (-1) produces no move |
| EdgeGeneration.ReachedAll | solver.js:13-22 | the moves that stay on the grid reach exactly the cells `isAdjacent` accepts |
| EdgeGeneration.NeighbourIsOneMove | solver.js:10-30 | on a valid board, b is a neighbour iff b exchanges the blank with an adjacent tile and keeps every other cell |
| EdgeGeneration.NeighbourBack | solver.js:19-30 | a neighbour of a valid board is valid and has the board among its own neighbours |
| EdgeGeneration.NeighbourSymmetric | solver.js:19-30 | on valid boards, b is a neighbour of a iff a is a neighbour of b |
| EdgeGeneration.NeighbourIrreflexive | solver.js:19-30 | no valid board is its own neighbour |
| EdgeGeneration.NeighbourCount | solver.js:11-22 | a board has 2 neighbours with the blank in a corner, 3 on an edge centre, 4 in the centre |
| GraphBuilder.SetupGraph | solver.js:40-98 | the nodes are exactly the permutations of 0..8, 362880 of them, each listed once, all unvisited with no parent; `edges` has the same keys and maps each node to its neighbour set |
| GraphBuilder.Enumerate | solver.js:45-92 | one loop level adds every permutation extending the chosen digits exactly once, and hands `alreadyUsed` back as it received it |
| GraphBuilder.AddBoard | solver.js:71-74 | the innermost body adds the board with clear scratch and its neighbour set |
| GraphBuilder.ChosenStep | solver.js:47-68 | adding a free digit keeps `alreadyUsed` equal to the digits chosen by the enclosing loops |
| GraphBuilder.FreeAll | solver.js:46-70 | with k digits chosen by the enclosing loops, exactly 9 - k digits are free for the current level |
| Search.Graph.constructor | solver.js:111 | the graph is complete and every node's scratch is clear |
| Search.Graph.ResetGraph | solver.js:104-109 | every node ends unvisited with no parent, and the key set is unchanged |
| Search.Graph.Rebuild | solver.js:127-133 | following parent links from the goal reaches the start after exactly the goal's distance, each link along an edge |
| Search.ScanNeighbours | solver.js:137-143 | after the scan every neighbour of the expanded node has a distance, and the search invariant still holds with the newly marked neighbours at the queue's end; the old queue stays in front, found nodes stay found, marked nodes keep their mark and parent, and the node set is unchanged |
| Search.Graph.Expand | solver.js:137-143 | scanning the neighbours of the node just shifted off the queue keeps the search invariant (marks match found nodes, parents follow edges, distances are minimal, the queue is in distance order) with the head now processed; the old queue stays in front, found nodes stay found, and marked nodes keep their mark and parent |
| Search.Graph.SolvePuzzle | solver.js:118-147 | a returned path is a walk from start to goal along edges and no walk is shorter; null only when no walk exists; `start == goal` gives `[start]`; the scratch is clear again after both exits |
| Search.Graph.WalkIsMoves | solver.js:118-147 | in the graph, a walk is a sequence of valid boards each one blank move from the one before |
| Search.Reversed | solver.js:135 | `reverse`: the same length, with element i taken from position length - 1 - i |
| Search.ReversedWalk | solver.js:135 | the rebuilt path, reversed, is a walk from the start to the goal |
| Search.Frontier | solver.js:124-143 | a node reachable within d steps has been found once every node found below distance d has been processed |
| Search.Exhausted | solver.js:144-146 | when the queue runs dry without the goal, no walk reaches the goal |
| Game.Legal | script.js:105-108 | on a valid board a drop is legal exactly when the dragged index is a tile's cell adjacent to the target and the target is the board's blank |
| Game.LegalAgrees | script.js:105-108 | on cells 0..8 the guard as written and the checked guard agree |
| Game.OffBoardDrop | script.js:100-109 | the guard as written accepts the drop from index 9 onto a blank in cell 6, and from -3 onto a blank in cell 0, reading an undefined cell; the checked guard rejects both |
| Game.Drop | script.js:98-118 | a tile dragged onto an adjacent blank takes the blank's cell and the blank takes its cell; every other cell stays; any other drop, one from an index off the board included, leaves the board unchanged; a valid board stays valid for any indices |
| Game.DropIsMove | script.js:105-109 | for any indices, a drop changes a valid board exactly when it produces one of the solver's neighbours of that board |
| Game.MoveIsDrop | script.js:105-109 | every neighbour of a valid board is the result of some legal drop onto the blank |
| Game.Shuffle | script.js:185-188 | the Fisher–Yates steps with the given draws keep the length (the multiset is `ShufflePermutes`) |
| Game.ShufflePermutes | script.js:183-190 | whatever the draws, the shuffle keeps the multiset of values, so a valid board shuffles to a valid board |
| Game.ShuffleArray | script.js:183-190 | it returns a fresh array holding the shuffled values, a permutation of the input, and leaves the input unchanged |
| Game.Deal | script.js:22 | dealing returns a fresh nine-cell array holding a valid board |
| Game.Game.constructor | script.js:22 | the initial board is the solved board shuffled, and it is valid |
| Game.Game.Swap | script.js:151-155 | the two cells exchange their values and every other cell keeps its own |
| Game.Game.CheckWin | script.js:161-166 | true exactly when the board is `[1, 2, 3, 4, 5, 6, 7, 8, 0]` |
| Game.Game.OnDrop | script.js:98-118 | for any indices the board becomes the drop transition and stays valid; the outcome is `Ignored` iff a blank was dragged, `Moved` iff the drop is legal, and `won` after a move iff the board is solved |
| Game.Game.Reset | script.js:196-203 | the new board is the solved board shuffled, and it is valid |
| Hints.NextBlank | script.js:217 | reading the next state's blank from its padded text gives that state's blank cell |
| Hints.NextBlankAsWritten | script.js:217 | the unpadded reading gives a cell 0..8 or -1 |
| Hints.Tell | script.js:218-220 | a tile is named exactly when dragging the tile in the next blank cell onto the blank is a legal drop; that drop is a move of the solver's graph; otherwise nothing is shown |
| Hints.HintForAsWritten | script.js:212-229 | the hint as written: "no solution" exactly when the solver answers null, and a named tile can legally be dragged onto the blank |
| Hints.HintFor | script.js:212-229 | the hint with the padded reading: "no solution" exactly when the solver answers null; a named tile can legally be dragged onto the blank and leaves the blank where the answer's second board has it |
| Hints.KeyNonZero | script.js:216 | the number of a valid board is never 0, so a present next step is never falsy |
| Hints.HintAlongPath | script.js:214-219 | when the solution continues with a neighbour, the hint names the tile whose legal drop produces that neighbour |
| Hints.AsWrittenLost | script.js:217 | when the next state has its blank in cell 0, the unpadded reading shows nothing, where the padded reading names a tile |
| Hints.AsWrittenAgrees | script.js:217 | otherwise the unpadded and padded readings give the same hint |
| Hints.WalkBound | solver.js:118-147 | every solution needs at least as many moves as the board's Manhattan sum |
| Hints.StuckFirstMove | solver.js:118-147 | every shortest solution from `[2, 0, 3, 1, 5, 6, 4, 7, 8]` first moves the blank to cell 0 |
| Hints.StuckHintLost | script.js:214-220 | on that board the hint as written shows nothing, while the padded reading says to move tile 2 |
| Hints.HintMeaning | script.js:212-229 | for any answer the solver may give: something is always shown; "no solution" exactly when none exists; the generic advice exactly on the solved board; otherwise a tile whose drop starts a shortest solution |
| Hints.Ask | script.js:210-229 | the board's key is solved towards 123456780 and the answer read as in `HintMeaning`; the graph stays complete and clean |
| Hints.ShowHint | script.js:209-230 | `showHint` on the game's board, with the guarantees of `Ask` |

## Left out

- Rendering, drag-and-drop event plumbing (`render`, `onDragStart`, `onDragOver`, `onDragEnd`, `dataTransfer`), CSS class toggles, `triggerWin`, `alert`, `console.log`, `setTimeout` and the listener wiring: page effects only. `OnDrop` returns which branch it took instead of touching the page.
- `Math.random()`: replaced by the draw sequence `picks`. Randomness and uniformity of the shuffle are not modelled.
- The running count `edgesCount` of solver.js:43-95: it only feeds a log message.
- The module-level `graph` (solver.js:111) and `board` (script.js:22) become a `Graph` and a `Game` object passed to the operations.
- Numbers as keys: maps and sets are keyed by the nine-digit sequence, and `StateCodec` relates it to the number. `parseInt` and `toString` are modelled only on non-negative decimal integers.
- Game.Drop, Game.Game.OnDrop: they model the drop with its indices checked (the corrected behaviour under Findings). The guard as written is `Game.LegalAsWritten`, on integer indices. The effect of the as-written swap through an index off the board is not modelled beyond the undefined cell it reads: an undefined cell 6 and a tenth element for index 9, or a stray `"-3"` property for index -3. Text that is not a number (`Number(...)` gives `NaN`) is not modelled; the guard rejects it, because `NaN` is adjacent to nothing.
- Search.Graph.SolvePuzzle: the start must be a node of the graph. The source throws a `TypeError` on an unknown start.
- Hints.Ask, Hints.ShowHint: they model the padded reading of the next state (the corrected behaviour under Findings). The as-written reading is `Hints.HintForAsWritten`.
- The header comment of script.js:1-2 says the blank is dragged onto a tile. The code (script.js:43-45, script.js:70-73, script.js:105-109) drags a numbered tile onto the blank, and the model follows the code.
- Solvability (permutation parity) is not used. The model proves `null` exactly for unreachable goals without characterising which boards those are.

## Findings

| source | as written | input that shows it | evidently intended | confidence | as-written member | corrected member |
|---|---|---|---|---|---|---|
| script.js:100-109 | the dragged index is taken from the drag data with `Number(...)` and never checked against the board, so for an index off the board `board[fromIndex] === 0` is false (undefined is not 0), and `isAdjacent` on the raw number can still hold, and `swap` copies the undefined cell into the blank's cell | blank in cell 6, drag data "9" (`isAdjacent(9, 6)` holds: column 0, rows 3 and 2); or blank in cell 0, drag data "-3" | reject a drop whose dragged index is not a cell 0..8, so the board stays a permutation | not executed | Game.OffBoardDrop | Game.Drop |
| script.js:217 | the next state's number is turned back into text with `String(nextStep)`, without the padding solver.js:9 applies, so a next state whose blank is in cell 0 has eight digits, `indexOf("0")` gives -1, `isAdjacent(blankPos, -1)` is false and no hint is shown | board `[2, 0, 3, 1, 5, 6, 4, 7, 8]`: every shortest solution first moves the blank to cell 0 | pad to nine digits before locating the blank, which names tile 2 | not executed | Hints.StuckHintLost | Hints.HintMeaning |
