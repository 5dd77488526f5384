# Random maze generator and A* solver, modelled in Dafny

The system draws a random maze on a `height × width` grid of integers, where
0 is a wall and 1 is a path. It then finds a shortest path through the maze
from the top-left to the bottom-right corner. The model covers its two
algorithms, both in `Maze_Generator/random-maze-generator/src/app.py`.

- **Carving, in `generator.dfy`.** Randomised recursive backtracking
  (`MazeGenerator`) starts at (0, 0). It visits the four cells two steps
  away in shuffled order. It carves into each one that is inside the grid
  and unvisited, opening the cell halfway there as well, and recurses from
  it. At the end, the start (0, 0) and the end (height-1, width-1) are
  forced open.
- **Search, in `solver.dfy`.** `MazeSolver` runs A* with the Manhattan
  heuristic and four-neighbour moves onto non-wall cells. Its priority queue
  holds (f-score, cell) entries. Re-insertion is lazy: there is no closed
  set, and a cell is queued again whenever its g-score strictly improves.
  The path is rebuilt by following came-from back-pointers and reversing.

`cells.dfy` holds the shared pieces: `Cell = (row, column)`, `Option`, unit
adjacency and `Reversed` (Python's `list.reverse`).

Coordinates are `(row, column)` throughout. The generator's own
`_carve_passages_from(cx, cy)` takes the column first. Its direction list
`(dx, dy)` = (0,2), (2,0), (0,-2), (-2,0) therefore appears here as the
`(row, column)` offsets (2,0), (0,2), (-2,0), (0,-2), in the same order.
Python's `dy // 2` floors, and Dafny's `/` agrees with it on ±2.

Both algorithms mutate state, and the model does the same:

- **Generator state.** `MazeGenerator` is a class. It holds `maze` and
  `visited` as `array2`, updated in place, and the random generator's state
  as fields. Ghost fields record the carving history, and a class invariant
  ties them to the arrays. The history consists of:
  - `parent`: the cell each visited cell was carved from;
  - `depth`: each visited cell's distance from (0, 0);
  - `carved`: the set of carved cells.
- **Search state.** `AStarSolve` keeps the source's local dictionaries as
  maps and its queue as a sequence. A `while` loop updates them. Each
  relaxation pass is specified by the pure functions `RelaxOne` and
  `RelaxAll`, and lemmas prove what they preserve.

Randomness is a parameter. `random.seed(42)` becomes a stream
`seeded: nat -> nat` of raw draws handed to `GenerateMaze`. `random.shuffle`
is the Fisher–Yates loop of CPython's `random.shuffle`. It swaps position
`i` (from the last down to 1) with position `draw(k) % (i + 1)`, where `k`
counts draws used so far.

Three behaviours of the code are modelled as written:

- Non-positive dimensions have no error value. The code indexes
  `visited[0, 0]` unconditionally and fails inside numpy, so here a width
  and height of at least 1 are a precondition.
- `start` is queued with priority 0, not with g + h. Every later entry
  carries f = g + h.
- A stale queue entry (a cell queued again after its score improved) is
  expanded again when popped, not skipped.

## Model

| member | source | states |
|---|---|---|
| Cells.ReversedAt | Maze_Generator/random-maze-generator/src/app.py:209 | `path.reverse()` keeps the length and puts element `k` at position `len-1-k` |
| Generator.Shuffle | Maze_Generator/random-maze-generator/src/app.py:64-65 | shuffling the direction list (CPython's swap loop driven by the draw stream) returns a rearrangement of it: same length, same multiset |
| Generator.ShuffledDirection | Maze_Generator/random-maze-generator/src/app.py:64-69 | every entry of a shuffled direction list is one of the four step-2 moves |
| Generator.StepFromLattice | Maze_Generator/random-maze-generator/src/app.py:69-77 | a step of 2 from a cell with both coordinates even lands on such a cell; the midpoint has exactly one odd coordinate (so it is never a lattice cell), is a unit step from both ends, and those two cells are exactly the pair `Ends` assigns to it |
| Generator.MazeGenerator.constructor | Maze_Generator/random-maze-generator/src/app.py:19-32 | dimensions kept, start (0,0), end (height-1, width-1), fresh all-zero `maze` and all-false `visited` of shape height × width |
| Generator.MazeGenerator.StepKeepsTree | Maze_Generator/random-maze-generator/src/app.py:71-77 | carving from a visited cell into an in-bounds unvisited one keeps the carving history a tree of lattice cells rooted at (0,0), with depth strictly decreasing along parent links, in which every carved cell is a visited cell or the midpoint of a tree edge; the midpoint is in bounds with one odd coordinate |
| Generator.MazeGenerator.CarveStep | Maze_Generator/random-maze-generator/src/app.py:75-77 | exactly two maze cells change, the new cell and the midpoint, both to 1; the midpoint is in bounds and not a lattice cell; exactly the new cell becomes visited (it was not before, so no cell is visited twice), with `p` as its parent and one more than its depth, and exactly those two cells become carved; the array/history invariant is kept |
| Generator.MazeGenerator.CarvePassagesFrom | Maze_Generator/random-maze-generator/src/app.py:55-79 | keeps the invariant; every carved cell stays carved and every earlier parent link and depth is kept; afterwards every in-bounds neighbour two steps away from `cell`, and from every cell visited during the call, is visited; terminates because each recursion shrinks the set of unvisited grid cells |
| Generator.MazeGenerator.CarveToward | Maze_Generator/random-maze-generator/src/app.py:68-79 | one pass of the direction loop: carved cells, parent links and depths recorded before are kept; afterwards the candidate cell is outside the grid or visited, and every cell visited meanwhile has all its step-2 neighbours visited |
| Generator.MazeGenerator.TreeWalk | Maze_Generator/random-maze-generator/src/app.py:75-79 | from every visited cell, back-pointers give a walk of unit steps from (0,0) through carved in-bounds cells |
| Generator.MazeGenerator.LatticeReached | Maze_Generator/random-maze-generator/src/app.py:64-79 | once every visited cell has all its step-2 neighbours visited, every in-bounds cell with both coordinates even is visited |
| Generator.MazeGenerator.CarvedShape | Maze_Generator/random-maze-generator/src/app.py:64-79 | after a complete run, a cell is visited exactly when both its coordinates are even, and no cell with both coordinates odd is carved |
| Generator.MazeGenerator.ChildEdge | Maze_Generator/random-maze-generator/src/app.py:75-77 | the passage opened when a visited cell was carved lies between that cell and its parent, has one odd coordinate and is carved |
| Generator.MazeGenerator.CarvedIsTree | Maze_Generator/random-maze-generator/src/app.py:68-79 | a cell with one odd coordinate is carved exactly when one of its two ends was carved from the other, and distinct visited cells have distinct passages to their parents |
| Generator.MazeGenerator.EdgeMidsCount | Maze_Generator/random-maze-generator/src/app.py:68-79 | any set of visited cells other than (0,0) has exactly as many passages to parents as cells |
| Generator.MazeGenerator.EdgeCount | Maze_Generator/random-maze-generator/src/app.py:55-79 | the carved cells that are not visited cells number one fewer than the visited cells: with the walks from (0,0), the passages form a spanning tree, so the maze has no cycle |
| Generator.MazeGenerator.OpenEnds | Maze_Generator/random-maze-generator/src/app.py:49-51 | after forcing start and end to 1, the open cells are exactly the carved ones plus start and end; all values are 0/1; every lattice cell is open and joined to the start by a walk over open cells; with odd dimensions that includes the end |
| Generator.MazeGenerator.Reset | Maze_Generator/random-maze-generator/src/app.py:41-46 | fresh all-wall grids, the random stream restarted from the seed, only (0,0) visited, empty carving history satisfying the invariant |
| Generator.MazeGenerator.GenerateMaze | Maze_Generator/random-maze-generator/src/app.py:34-53 | returns the fresh height × width maze: the open cells are exactly the carved ones plus start and end, and the carving history is a tree (so every other open cell is a lattice cell or the passage between a cell and its parent, at which `CarvedIsTree` and `EdgeCount` apply); every cell 0 or 1; start and end are 1; visited cells are exactly the lattice cells, all of them open; cells with two odd coordinates other than the end are walls; every lattice cell is reachable from the start over open cells, and so is the end when both dimensions are odd |
| Solver.ExtractMin | Maze_Generator/random-maze-generator/src/app.py:200 | `open_set.get()` on a non-empty queue removes one entry that is least in Python's `(f, (row, col))` tuple order; the rest is the old queue minus that one entry (as a multiset) |
| Solver.MazeSolver.constructor | Maze_Generator/random-maze-generator/src/app.py:131-139 | keeps the grid and takes height and width from its shape |
| Solver.MazeSolver.Heuristic | Maze_Generator/random-maze-generator/src/app.py:141-152 | the Manhattan distance is a natural number, zero exactly when the two cells are equal |
| Solver.MazeSolver.HeuristicSymmetric | Maze_Generator/random-maze-generator/src/app.py:152 | h(a, b) = h(b, a) |
| Solver.MazeSolver.HeuristicConsistent | Maze_Generator/random-maze-generator/src/app.py:152 | one unit step changes h towards any target by at most 1 |
| Solver.MazeSolver.HeuristicAdmissible | Maze_Generator/random-maze-generator/src/app.py:152 | h(a, b) never exceeds the number of moves of any walk from a to b |
| Solver.MazeSolver.GetNeighbors | Maze_Generator/random-maze-generator/src/app.py:154-175 | a cell is returned exactly when it is a unit step away, in bounds and non-zero; results come in the order (0,1), (1,0), (0,-1), (-1,0), hence without repetition |
| Solver.MazeSolver.WalkEndsInside | Maze_Generator/random-maze-generator/src/app.py:170-173 | every walk ends inside the grid or where it started, so an out-of-bounds end other than the start has no walk (and `AStarSolve` returns `None` for it) |
| Solver.MazeSolver.KeysWithinUniverse | Maze_Generator/random-maze-generator/src/app.py:196-217 | g-scores are only ever recorded for in-bounds cells and the start |
| Solver.MazeSolver.FutureShrinks | Maze_Generator/random-maze-generator/src/app.py:217 | lowering a score below its current value removes a pair from the finite termination measure |
| Solver.MazeSolver.RelaxOne | Maze_Generator/random-maze-generator/src/app.py:213-219 | one relaxation never raises the g-score of the cell being expanded |
| Solver.MazeSolver.RelaxAll | Maze_Generator/random-maze-generator/src/app.py:212-219 | the whole neighbour loop never raises the g-score of the cell being expanded |
| Solver.MazeSolver.RelaxKeepsBookkeeping | Maze_Generator/random-maze-generator/src/app.py:215-217 | an improving relaxation keeps start at score 0 without a back-pointer, and every other scored cell with a back-pointer to a scored cell one move away and at least one lower |
| Solver.MazeSolver.RelaxKeepsQueue | Maze_Generator/random-maze-generator/src/app.py:218-219 | an improving relaxation keeps f = g + h for every scored cell and every queued entry sound |
| Solver.MazeSolver.RelaxKeepsSettled | Maze_Generator/random-maze-generator/src/app.py:215-219 | an improving relaxation keeps every scored cell other than the current one queued or expanded |
| Solver.MazeSolver.RelaxShrinksFuture | Maze_Generator/random-maze-generator/src/app.py:215-217 | an improving relaxation strictly shrinks the termination measure |
| Solver.MazeSolver.RelaxOneSound | Maze_Generator/random-maze-generator/src/app.py:213-219 | one neighbour pass keeps scores, back-pointers, f-scores and queue sound |
| Solver.MazeSolver.RelaxOneSettled | Maze_Generator/random-maze-generator/src/app.py:213-219 | one neighbour pass keeps every scored cell other than the current one settled (queued or expanded) |
| Solver.MazeSolver.RelaxOneProgress | Maze_Generator/random-maze-generator/src/app.py:213-219 | g-scores only decrease, the current cell's is unchanged, and an entry is queued exactly when the termination measure shrinks |
| Solver.MazeSolver.RelaxAllSound | Maze_Generator/random-maze-generator/src/app.py:212-219 | the whole neighbour loop keeps the search sound |
| Solver.MazeSolver.RelaxAllSettled | Maze_Generator/random-maze-generator/src/app.py:212-219 | the whole neighbour loop keeps every scored cell other than the current one settled |
| Solver.MazeSolver.RelaxAllProgress | Maze_Generator/random-maze-generator/src/app.py:212-219 | after the loop every neighbour scores at most one more than the current cell, and the queue grew exactly when the termination measure shrank |
| Solver.MazeSolver.ExpandSettles | Maze_Generator/random-maze-generator/src/app.py:199-219 | expanding a popped cell that is not the end leaves every scored cell settled and the search sound, with the loop measure decreasing |
| Solver.MazeSolver.PendingOnWalk | Maze_Generator/random-maze-generator/src/app.py:199-201 | while the search is settled, every walk from start to end has a queued entry with priority at most its move count |
| Solver.MazeSolver.GoalScoreOptimal | Maze_Generator/random-maze-generator/src/app.py:200-202 | when a least entry is for the end, the end is scored and no walk to it has fewer than g[end] + 1 cells |
| Solver.MazeSolver.WalkStaysScored | Maze_Generator/random-maze-generator/src/app.py:199-221 | if every scored cell is expanded, every walk from a scored cell ends at a scored cell (so an exhausted queue means no walk to the end) |
| Solver.MazeSolver.ReconstructPath | Maze_Generator/random-maze-generator/src/app.py:203-210 | following back-pointers from the end, appending start and reversing yields a walk from start to end of at most g[end] + 1 cells; when start is the end it is `[start]` |
| Solver.MazeSolver.RelaxNeighbors | Maze_Generator/random-maze-generator/src/app.py:212-219 | the in-place loop over the neighbours leaves exactly the state `RelaxAll` describes |
| Solver.MazeSolver.AStarSolve | Maze_Generator/random-maze-generator/src/app.py:177-221 | a returned path starts at start, ends at the end (the corner by default), moves by unit steps onto non-wall in-bounds cells, and no walk is shorter; `None` only when no walk exists; start = end gives `[start]` |
| Solver.OpenWalkIsWalk | Maze_Generator/random-maze-generator/src/app.py:254-255 | a walk over the open cells of a generated maze is a walk of the search on that same array |
| Solver.GeneratedMazeSolvable | Maze_Generator/random-maze-generator/src/app.py:243-255 | when the generated maze joins its start to its end, the search on it has a walk from (0,0) to its default goal, so `AStarSolve` does not return `None` |

## Left out

- `visualize_maze` (emoji rendering) and `main` (Streamlit widgets, session state, buttons) are presentation only and not modelled.
- Generator.Shuffle: CPython's `_randbelow` draws random bits and rejects out-of-range values; the model takes the index as the next draw reduced modulo `i + 1`. The Mersenne Twister itself is not modelled, so the model does not say which maze seed 42 produces, only what holds for every draw stream.
- Generator.MazeGenerator.GenerateMaze: requires width and height of at least 1. The source indexes `visited[0, 0]` unconditionally and fails inside numpy otherwise; no error value exists to model.
- Generator.MazeGenerator.GenerateMaze: with an even dimension the end cell is forced open but may be cut off from the rest of the maze; the model proves reachability of the end only for odd dimensions and states nothing about the even case.
- Python's recursion-depth limit on `_carve_passages_from` is not modelled; the recursion is proved to terminate.
- numpy arrays become `array2<int>`/`array2<bool>`; `queue.PriorityQueue` becomes a sequence of (f, cell) entries with an extract-min that follows Python's tuple order.
- The default arguments `MazeGenerator(width=21, height=21)` and `a_star_solve(start=(0, 0))` are not modelled: the constructor and `AStarSolve` take every value explicitly. Only the default `end=None` is kept, as `Option`.
- `random.seed` as process-wide state: the seed becomes the draw-stream parameter of `GenerateMaze`.
- The `f_score` dictionary is read only for the queue entry just written to it, as the priority of that entry; no stored f-score is looked up later. The model does the same, and proves f = g + h for every scored cell (`FScores`).
