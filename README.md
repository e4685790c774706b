# CubeSol search core in Dafny

CubeSol solves a cube-like rotation puzzle. It has two parts:

- `KnowledgeBaseBuilder.construct_heuristic_database` explores breadth-first from the solved configuration. It builds a table that maps serialized configurations to move counts.
- `AdaptiveSearchEngine` uses that table as a heuristic. It runs a greedy depth-limited descent under a threshold. `solve_puzzle` repeats the descent, and each time it replaces the threshold by the least cost seen in the previous round.

The driver in `puzzle_runner.py` builds the move catalog, builds the table, solves, and then replays the solution on the puzzle object.

This project models those pieces and proves what they compute.

- **Moves and the puzzle** (`puzzle_engine.dfy`)
  - `puzzle_engine.py` is not part of this model. Its rotations, goal test and size are the fields of a `PuzzleModel` value: total functions over configurations (`State`, a string).
  - `ApplyMove` is the dispatch on a move's type tag. `"horizontal"`, `"vertical"` and `"sideways"` select a rotation. Any other tag leaves the configuration unchanged.
  - `Replay` applies a move list from the first move to the last.
  - `CubicPuzzle` is the mutable puzzle object. Its three rotation methods update `configuration` in place.
- **Catalog** (`search_algorithm.dfy`, first part)
  - `GenerateAllMoves` is the nested comprehension: type, then direction, then layer.
  - The catalog of size `n` holds exactly the well-formed moves: a known type, a layer in `0..n-1` and a direction of 0 or 1.
  - It holds each such move once, and entry `i` is `(types[i / 2n], i % n, (i / n) % 2)`.
- **Search** (`search_algorithm.dfy`, class `AdaptiveSearchEngine`)
  - The class keeps the Python attributes as fields. `currentThreshold` and `nextThreshold` are `Option<int>`, because `next_threshold` starts as `None` and `solve_puzzle` copies it into `current_threshold`.
  - `ScanMoves` is the loop over the catalog. It stops at the first move that reaches a goal. Otherwise it returns the least total cost and every tie at that cost, in catalog order.
  - `DepthLimitedSearch` and `Descend` together are `_depth_limited_search`. They state:
    - the path only grows;
    - a `Found` result solves the puzzle from the searched configuration;
    - the first move a call appends is a greedy step from the configuration that call searches (`IsGreedyStep`);
    - the path never exceeds the threshold;
    - `nextThreshold` never rises. It is unchanged at a goal, on a full path, when a move reaches a goal, and for an empty catalog;
    - when a node descends, `nextThreshold` becomes the smaller of its old value and the node's least total cost (`Lowered`). This holds when the stored distances, the depth ceiling and the cost so far are non-negative; in that case it is also unchanged whenever it is already at most the cost so far;
    - the `None` comparison that Python rejects with a `TypeError` happens exactly when `current_threshold` is `None` at a non-goal node.
  - The recursive call passes `costSoFar + optimal`, as the source does, although `optimal` already includes `costSoFar`.
- **Table** (`knowledge_base_builder.dfy`)
  - `ConstructHeuristicDatabase` is the FIFO exploration. Entries deeper than the exploration depth `D` are skipped, so recorded distances reach `D + 1`. Every successor is enqueued, including those already known.
  - Started without existing knowledge, the result is a distance table (`IsDistanceTable`):
    - the goal maps to 0;
    - every other key maps to some `k` in `1..D+1` such that `k` moves lead from the goal to that key;
    - every configuration reachable in `k` moves, for `k` in `1..D+1`, is a key with a value of at most `k`.
  - Started from existing knowledge, every old key survives with a value no larger. The goal is not forced to 0.
  - `HeuristicIsDistance` states what the engine then reads: 0 at the goal, the least move count for other keys, and the depth ceiling for configurations the table does not hold. The table measures moves *from* the goal, because the exploration applies the moves forward from the solved configuration.
- **Driver** (`puzzle_runner.dfy`)
  - `GenerateMoveCatalog` is the same comprehension as the engine's catalog.
  - `ApplySolutionMoves` is a loop over the puzzle object that skips unknown tags. It ends in the configuration `Replay` computes.

## Model

| member | source | states |
|---|---|---|
| PuzzleEngine.CubicPuzzle.ExecuteHorizontalRotation | search_algorithm.py:174-175 | the object's configuration becomes the horizontal rotation of the old one at the given layer and direction |
| PuzzleEngine.CubicPuzzle.ExecuteVerticalRotation | search_algorithm.py:176-177 | the object's configuration becomes the vertical rotation of the old one |
| PuzzleEngine.CubicPuzzle.ExecuteLateralRotation | search_algorithm.py:178-179 | the object's configuration becomes the lateral rotation of the old one |
| SearchAlgorithm.GenerateAllMoves | search_algorithm.py:105-112 | the catalog of size `n` has `6 * max(n, 0)` moves |
| SearchAlgorithm.CatalogComplete | search_algorithm.py:107-112 | every move with a known type, a layer in `range(n)` and a direction of 0 or 1 is in the catalog |
| SearchAlgorithm.CatalogSound | search_algorithm.py:107-112 | every catalog move has a known type, a layer in `range(n)` and a direction of 0 or 1 |
| SearchAlgorithm.CatalogMembership | search_algorithm.py:107-112 | a move is in the catalog if and only if it is well formed for size `n` |
| SearchAlgorithm.CatalogEntry | search_algorithm.py:107-112 | the move of type `t`, direction `d` and layer `l` sits at index `(2t + d) * n + l`, so the layer varies fastest and the type slowest |
| SearchAlgorithm.CatalogAt | search_algorithm.py:107-112 | index `i` holds type `i / 2n`, layer `i % n` and direction `(i / n) % 2` |
| SearchAlgorithm.CatalogDistinct | search_algorithm.py:107-112 | no move occurs twice in the catalog |
| SearchAlgorithm.CatalogFacts | search_algorithm.py:105-112 | membership if and only if well formed, the index formula, and no duplicates, all for one size |
| SearchAlgorithm.SolvesStep | search_algorithm.py:98-101 | a path whose first move leads to a configuration that its remainder solves is itself a solution |
| SearchAlgorithm.AdaptiveSearchEngine.constructor | search_algorithm.py:11-23 | the threshold starts at the depth limit, the next threshold is absent and the path is empty |
| SearchAlgorithm.AdaptiveSearchEngine.ApplyMoveTo | search_algorithm.py:114-123 | the puzzle object ends in `ApplyMove` of its old configuration: a known tag selects the matching rotation and any other tag changes nothing |
| SearchAlgorithm.AdaptiveSearchEngine.GetHeuristicValue | search_algorithm.py:125-127 | a stored configuration gets its stored value; any other gets the depth ceiling |
| SearchAlgorithm.AdaptiveSearchEngine.MinTotalIsLowerBound | search_algorithm.py:83-85 | no listed move has a smaller total cost than the tracked optimum |
| SearchAlgorithm.AdaptiveSearchEngine.MinTotalIsAttained | search_algorithm.py:83-85 | some listed move has exactly the optimum as its total cost |
| SearchAlgorithm.AdaptiveSearchEngine.TiesMembers | search_algorithm.py:83-90 | a pair is a kept candidate if and only if it is (successor, move) for a listed move whose total cost is the optimum |
| SearchAlgorithm.AdaptiveSearchEngine.TiesBelowMinimum | search_algorithm.py:83-85 | when every move costs more than a value, no candidate is kept at that value, so a strict improvement starts a fresh candidate list |
| SearchAlgorithm.AdaptiveSearchEngine.ScanStep | search_algorithm.py:79-90 | one iteration keeps three things: no scanned move reaches a goal, the optimum is the least cost so far, and the candidates are exactly the ties at it |
| SearchAlgorithm.AdaptiveSearchEngine.ScanMoves | search_algorithm.py:71-90 | the first goal-reaching move is returned, with no earlier move reaching a goal; otherwise no move reaches a goal, the optimum is absent exactly for an empty catalog, and it is the least total cost, with candidates exactly the non-empty ties in order |
| SearchAlgorithm.AdaptiveSearchEngine.TieIsGreedy | search_algorithm.py:93-98 | a candidate drawn from the ties is a greedy step whose configuration is its move's successor |
| SearchAlgorithm.AdaptiveSearchEngine.DepthLimitedSearch | search_algorithm.py:45-103 | these hold: the goal case returns `Found` and changes nothing; the error case happens exactly with no threshold at a non-goal; a full path returns `NotFound` unchanged; the threshold is unchanged; the old path is a prefix of the new one; `Found` means the appended moves solve; the path never exceeds the threshold; the first appended move is greedy; the next threshold never rises; it is unchanged unless the node descends (no goal, room on the path, a non-empty catalog with no goal-reaching move); when it descends it is at most the node's least cost, and with non-negative distances and cost it is exactly the minimum of its old value and that least cost; with non-negative distances and cost, a next threshold already at most the cost so far stays as it is |
| SearchAlgorithm.AdaptiveSearchEngine.Descend | search_algorithm.py:93-101 | the next threshold is lowered to at most the least cost and never raised, and with non-negative distances, cost and optimum it becomes exactly the old value if that is smaller and the optimum otherwise (a missing old value gives the optimum); the move of one tied candidate is appended and the search recurses from its successor; the path grows but stays within the threshold; `Found` means the appended moves solve; no error can occur here |
| SearchAlgorithm.AdaptiveSearchEngine.SolvePuzzle | search_algorithm.py:25-43 | a returned path is the engine's path and, starting from an empty path, solves the initial configuration; a goal start returns at once; the error case needs a missing threshold; after a spent budget the path is empty and the threshold is the last next threshold |
| KnowledgeBaseBuilder.ReachesStep | search_algorithm.py:181-187 | one more move after a path of `n` moves gives a path of `n + 1` moves to the successor |
| KnowledgeBaseBuilder.Children | search_algorithm.py:171-187 | the inner loop enqueues one entry per move considered |
| KnowledgeBaseBuilder.ChildrenAt | search_algorithm.py:171-187 | the `j`-th enqueued entry is the successor under move `j` at depth one more than the expanded entry |
| KnowledgeBaseBuilder.RecordImprovement | search_algorithm.py:184-185 | recording a reachable distance that improves the table keeps every entry either initial or a genuine reach distance |
| KnowledgeBaseBuilder.PopSkip | search_algorithm.py:166-169 | dropping an entry deeper than the exploration depth loses no short path still owed |
| KnowledgeBaseBuilder.PopExpand | search_algorithm.py:166-171 | dequeuing an expandable entry hands what it owes over to its moves |
| KnowledgeBaseBuilder.ExpandStep | search_algorithm.py:181-187 | recording and enqueuing move `i`'s successor discharges every short path that goes through it |
| KnowledgeBaseBuilder.ExpandMove | search_algorithm.py:181-187 | handling one move as the source does keeps the inner-loop invariant: sound entries, reached queue, nothing short lost |
| KnowledgeBaseBuilder.ExpandEntry | search_algorithm.py:171-188 | after all moves the inner-loop invariant holds and the queue is the old queue followed by every successor at depth + 1, in move order |
| KnowledgeBaseBuilder.Dequeue | search_algorithm.py:165-169 | popping the head either skips it with strictly less work left, or starts its expansion with its work split off |
| KnowledgeBaseBuilder.Expanded | search_algorithm.py:171-188 | after the inner loop the outer invariant holds again and the queue's work grew by exactly the children's share |
| KnowledgeBaseBuilder.Drained | search_algorithm.py:165 | with an empty queue the table is sound and complete up to `D + 1` moves |
| KnowledgeBaseBuilder.ConstructHeuristicDatabase | search_algorithm.py:136-190 | without existing knowledge the result is a distance table; with it, old keys survive with values no larger; every value is either untouched initial knowledge or a distance in `1..D+1` at which the key is reached from the goal; every configuration reached in `k` moves for `k` in `1..D+1` is a key with a value of at most `k` |
| KnowledgeBaseBuilder.HeuristicIsDistance | search_algorithm.py:125-127 | over a table built without existing knowledge, the heuristic is 0 at the goal, the least move count from the goal for other keys, and the depth ceiling exactly for configurations not reached within `D + 1` moves |
| PuzzleRunner.GenerateMoveCatalog | puzzle_runner.py:87-94 | the driver's catalog equals the engine's; it has `6 * max(n, 0)` moves, holds exactly the well-formed ones, and has no duplicates |
| PuzzleRunner.ReplayAppend | puzzle_runner.py:100 | replaying a concatenation replays its parts in turn |
| PuzzleRunner.ReplaySnoc | puzzle_runner.py:100-108 | replaying one more move applies it to the configuration reached so far |
| PuzzleRunner.ReplaySkipsUnknown | puzzle_runner.py:109-110 | removing a move with an unknown type tag from anywhere in a sequence does not change the outcome |
| PuzzleRunner.ApplySolutionMoves | puzzle_runner.py:97-110 | the puzzle object ends in the configuration that replaying the moves in order gives, with unknown tags skipped |

## Left out

- `puzzle_engine.py` is not part of this model. The puzzle's rotations, goal test, size and serialization are parameters (`PuzzleModel`). A fresh `CubicPuzzle(configuration=state)` followed by `export_state()` is modelled as working on the configuration value.
- `solve_puzzle`'s `while True` runs at most `fuel` rounds. `OutOfFuel` stands for the rounds the model does not run.
- `random.choice` is modelled as an arbitrary choice among the candidates. The contracts hold for every choice.
- The `float('inf')` start of `optimal_cost` is modelled as an absent optimum. Total costs are integers, so nothing is lost.
- The `candidate_moves is None` test inside the tie branch (search_algorithm.py:87-88) cannot succeed once `optimal_cost` is finite, so it is not modelled separately.
- `tqdm`, the `total_nodes` estimate (search_algorithm.py:162), printing, the warning for unknown move types, and the JSON load and save in `load_or_build_knowledge_base` are left out. They are I/O or progress display.
- `main`, `load_or_build_knowledge_base` and `interactive_mode` are left out. They are driver code that reads files and the console.
- Python returns `self.solution_path` itself, so later changes to the engine would show through the returned list. The model returns the path as a value.
- `existing_knowledge.copy()` is a map value in the model, so the missing copy of the caller's dictionary cannot be observed.
- The default arguments `depth_limit=20` (search_algorithm.py:11) and `exploration_depth=20` (search_algorithm.py:139) are left out, and callers pass both values. The engine's hold on the caller's `knowledge_base` dictionary (search_algorithm.py:22) is left out too: the table is a map value, so later changes by the caller cannot be seen. Python's recursion limit (about 1000 frames) is left out as well: a threshold near it would raise `RecursionError`, and the model has no such limit.
- SearchAlgorithm.AdaptiveSearchEngine.DepthLimitedSearch: the exact new `nextThreshold` is stated only when the depth ceiling, the stored distances and the cost so far are non-negative. Without that, deeper nodes can lower it below the node's least cost, so the contract gives only the upper bounds.
- SearchAlgorithm.AdaptiveSearchEngine.SolvePuzzle: does not prove that a solution is found on some round. The greedy descent gives no such guarantee, and the outer loop may repeat a round with the same threshold forever or reach `None`.
- SearchAlgorithm.AdaptiveSearchEngine.Descend: the node's reasoning is split between this method and `DepthLimitedSearch` as a proof structure. Together they are one Python method.
