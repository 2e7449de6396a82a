# pyGemTD path search and maze evaluation, in Dafny

pyGemTD is a tower-defence prototype. Creeps walk from a start tile through
a list of waypoints to an end tile. They take the path that an A* search
finds around the tiles the player has blocked. A separate genetic optimiser
scores random 40 x 40 mazes by the total length of the A* paths joining its
own waypoints.

This project models the sequential core of both programs and proves what
it computes.

- `wrappers.dfy`, module `Wrappers`: `Option`.
- `geometry.dfy`, module `Geometry`: integer coordinates and orthogonal
  adjacency. It proves that a walk of unit steps is at least as long as the
  Manhattan distance of its ends.
- `astar.dfy`, module `AStar`: `A_star` and `reconstruct_path` (pyGemTD.py),
  generic in the node type. Each search is bounded by a finite set of nodes
  that holds `start` and is closed under `ne`. The proofs show:
  - a returned path starts at `start`, ends at `goal` and moves along `ne`
    edges;
  - `NotFound` is returned exactly when no such path exists.

  The module also has the segment concatenation that both callers perform.
- `genetic.dfy`, module `Genetic`: `Individual` and `Population`
  (geneticAlgo.py):
  - the grid neighbour function;
  - `calculate_fitness`, where `is_valid` holds exactly when every
    waypoint segment is reachable, and the fitness is the sum of the segment
    node counts, never below 131;
  - `randomize`, with its random draws supplied by a parameter;
  - `Population.initialize`.
- `board.dfy`, module `Board`: `Tile` and `Game` (pyGemTD.py):
  - a 100 x 100 map of tile objects;
  - the tile state changes;
  - the board neighbour function;
  - `make_path`, which runs A* over the tiles themselves;
  - `show_waypoints`, `show_path`, `clear_path` and the pixel-to-tile lookup.

Loops in the source are `while`/`for` loops here with their invariants.
Objects whose fields the source updates are classes: `Tile`, `Game`,
`Individual` and `Population`. The search maps of A* are `set` and `map`
values that the loops reassign.

Three parts of the model are abstracted:

- The heuristic `h` is a nat-valued function parameter. The Euclidean
  `cartesian_distance` that the callers pass is represented by a parameter
  `dist` over coordinates.
- The edge cost is `UnitCost`. That is the Euclidean distance between two
  orthogonal neighbours, which is the only pair A* ever measures.
- Random cells are supplied by a `choice` function parameter.

Where the code and its design notes disagree, the model follows the code:

- A* is not claimed to return shortest paths. Both callers pass a heuristic
  that measures distance from the segment's start, not to the goal
  (pyGemTD.py:179, geneticAlgo.py:34).
- At geneticAlgo.py:34-35 tuples are passed to `cartesian_distance`, which
  reads `.x` and `.y` (pyGemTD.py:53). As written, that call raises. The model
  uses coordinates and unit edge cost, which is the evident intent.
- When a segment has no path, `make_path` calls `path.extend(False)`, which
  raises. `self.path` is then left as it was. `Game.MakePath` returns
  `ok == false` in that case and leaves `path` unchanged.

## Model

| member | source | states |
|---|---|---|
| AStar.ReconstructPath | pyGemTD.py:39-47 | The returned list ends with `current`. Its first node has no `cameFrom` entry. Each later node's `cameFrom` entry is the node before it. |
| AStar.SelectMin | pyGemTD.py:70-74 | The chosen node is in the open set, and its fScore is no larger than that of any open node. |
| AStar.RelaxNeighbor | pyGemTD.py:81-87 | When `gScore[current] + d(current, neighbor)` beats the neighbour's recorded score, or it has none, `current` becomes its predecessor, it gets the new g-score and f-score (`g + h`) and joins the open set; otherwise all four maps are unchanged (`RelaxStep`). Relaxing one neighbour also keeps the search invariant: `gScore[start] == 0`; `fScore == gScore + h` on every key; the open set lies within the scored keys; every link follows an `ne` edge to a node of strictly smaller g. It also keeps the progress facts: scores only go down, keys only grow, and the score sum falls or a node is added whenever the open set grows. |
| AStar.RelaxNeighbors | pyGemTD.py:79-87 | After all of `ne(current)` is relaxed, the invariant holds. `gScore[current]` is unchanged. Every neighbour `b` has a score of at most `gScore[current] + d(current, b)`. A score of a node outside `ne(current)` is unchanged, and every newly scored node is in `ne(current)`. |
| AStar.RelaxKeepsInvariant | pyGemTD.py:82-87 | The update the source makes on a better score keeps the relaxation facts: predecessor `current`, `gScore[neighbor] = gScore[current] + d`, `fScore = g + h`, and `neighbor` added to the open set. |
| AStar.RelaxKeepsSearch | pyGemTD.py:82-87 | That update keeps `gScore[start] == 0`, `fScore == gScore + h`, descending links along `ne` edges, and goal-scored-implies-open. |
| AStar.Search | pyGemTD.py:55-88 | A `Found` path starts at `start`, ends at `goal`, and has each node in `ne` of the one before. `NotFound` (the source's `False`) is returned exactly when no path from `start` to `goal` exists. |
| AStar.PathStaysWithin | pyGemTD.py:56-57 | In a neighbour-closed node set holding `start`, every path from `start` stays inside the set. Searching within the set therefore hides no path. |
| AStar.ClosedSetSeparates | pyGemTD.py:88 | A neighbour-closed set that holds `start` but not `goal` admits no path from `start` to `goal`. This is why an exhausted open set means no path. |
| AStar.ConcatLength | pyGemTD.py:171-184 | The concatenated path is as long as the segments together. |
| AStar.ConcatVisitsInOrder | pyGemTD.py:171-184 | Segment k begins in the concatenation right after the nodes of segments 0..k-1. |
| Geometry.WalkAtLeastManhattan | geneticAlgo.py:18-24 | A walk of orthogonal unit steps has at least Manhattan-distance + 1 nodes. |
| Genetic.KeepOpen | geneticAlgo.py:21-23 | A coordinate is kept exactly when it is a candidate that lies in `[0, len(grid))` on both axes and has weight 0. The result is no longer than the candidates. |
| Genetic.Neighbors | geneticAlgo.py:18-24 | A cell is returned exactly when it is orthogonally adjacent, lies inside the grid and is open. There are at most four. |
| Genetic.UniverseClosed | geneticAlgo.py:31-37 | The grid cells plus the start are closed under `get_neighbor`, and every edge has positive cost. This is the bound under which each segment search is run. |
| Genetic.PathAtLeastManhattan | geneticAlgo.py:31-43 | Every path the grid search can return has at least Manhattan-distance + 1 nodes. |
| Genetic.PathMakesSegmentReachable | geneticAlgo.py:38-41 | Any grid path between a segment's waypoints makes that segment reachable. A failed segment therefore has no path at all. |
| Genetic.LowerBoundOfAllSegments | geneticAlgo.py:28 | Over the seven waypoint segments, the per-segment minimum node counts sum to 131. |
| Genetic.SegmentAdds | geneticAlgo.py:43 | Adding a found segment adds its node count to the total and keeps the total at or above the bound. |
| Genetic.SearchSegments | geneticAlgo.py:28-43 | Searches segments in order and stops at the first one without a path. Each found segment is a grid path between its waypoints. The total is the sum of their node counts and at least the Manhattan bound. `found` holds exactly when all seven are found; otherwise the next segment is unreachable. |
| Genetic.Individual.constructor | geneticAlgo.py:13-16 | The grid is empty, the fitness is 0 and `is_valid` is false. |
| Genetic.Individual.CalculateFitness | geneticAlgo.py:26-45 | The grid is unchanged. `is_valid` holds exactly when every consecutive waypoint pair is reachable. If valid, the fitness is the summed node count of the seven segment paths. If not, the fitness is the infinite sentinel and the first failing segment is unreachable. |
| Genetic.Individual.Randomize | geneticAlgo.py:47-55 | An already valid individual is left unchanged. Otherwise the grid is the last 40 x 40 draw. `is_valid` holds exactly when that draw connects all waypoints, and every earlier draw did not. After a failed draw the fitness is `Infeasible`. After a successful one it is the total node count of seven grid paths joining the waypoints. When no draw is made, nothing changes. |
| Genetic.Population.constructor | geneticAlgo.py:64-65 | The population is empty. |
| Genetic.Population.Initialize | geneticAlgo.py:67-73 | Existing individuals stay in place and in order. New fresh individuals are appended until there are 20, or none if there already are. Each new one is valid or all its draws failed. |
| Board.Tile.constructor | pyGemTD.py:95-103 | A new tile has its coordinates, is free ground, and has no label. |
| Board.Tile.Clear | pyGemTD.py:111-113 | The tile becomes free ground. |
| Board.Tile.Block | pyGemTD.py:115-117 | The tile becomes blocked. |
| Board.Tile.MarkWaypoint | pyGemTD.py:119-121 | The tile becomes a waypoint tile. |
| Board.Tile.MarkPath | pyGemTD.py:123-124 | Only the colour changes, to path colour. |
| Board.KeepPassable | pyGemTD.py:157-163 | A candidate's tile is kept exactly when the candidate is on the board and not blocked. |
| Board.Around | pyGemTD.py:156 | The four candidates are exactly the orthogonally adjacent coordinates. |
| Board.TileNeighbors | pyGemTD.py:153-164 | On a coherent board, a tile is returned exactly when it is an adjacent board tile that is not blocked. There are at most four. |
| Board.UnblockedNeighbors | pyGemTD.py:153-164 | On a full board, the neighbours are exactly the adjacent tiles whose type is not `BLOCKED`. |
| Board.SearchLegs | pyGemTD.py:170-183 | Runs A* from each route point to the next and stops at the first failure. Each segment found is a tile path between its route points. The joined path is their concatenation and lies on the board. `found` holds exactly when every segment is found; otherwise the failing segment has no path. |
| Board.LegsJoin | pyGemTD.py:170-184 | The joined path's length is the sum of the segment lengths. It meets start and each waypoint, in order, where its segment begins, and it ends at the end tile. |
| Board.Game.Route | pyGemTD.py:170 | The route is start, the six waypoints and end, all on the board. |
| Board.Game.constructor | pyGemTD.py:131-141 | The grid has one fresh, free, unlabelled tile per coordinate of the 100 x 100 board, each under its own coordinates. The path is empty. |
| Board.Game.GetNeighbor | pyGemTD.py:153-164 | The result is the board neighbour function on the current tile types. A tile is in it exactly when it is an orthogonally adjacent board tile that is not `BLOCKED`. There are at most four, all with coordinates in 0..99. |
| Board.Game.MakePath | pyGemTD.py:166-185 | If every segment is found, the path is their concatenation. Its length is the sum of the segment lengths. It meets start, then each waypoint in order, and ends at the end tile. Otherwise the path is unchanged and the first failing segment has no path. |
| Board.Game.ShowWaypoints | pyGemTD.py:143-151 | Tiles in some waypoint's 4 x 4 block become waypoint tiles, and all others keep their type and colour. Each tile's label follows the waypoint numbering. |
| Board.Game.ShowWaypoint | pyGemTD.py:148-151 | One waypoint's block is marked and its tile is labelled with its number. |
| Board.Game.MarkBlock | pyGemTD.py:148-150 | Exactly the 4 x 4 block from `(px-1, py-1)` to `(px+2, py+2)` is marked. |
| Board.Game.LabelMeans | pyGemTD.py:147-151 | After labelling, each waypoint tile carries its own index and every other tile keeps its old label. |
| Board.Game.CoveredMeans | pyGemTD.py:147-150 | A tile is marked exactly when some waypoint's block contains it. |
| Board.Game.WaypointsInside | pyGemTD.py:139 | Every waypoint's block lies on the board, and no waypoint is listed twice. |
| Board.Game.ShowPath | pyGemTD.py:188-190 | Exactly the path tiles get path colour. No tile's type or label changes. |
| Board.Game.ClearPath | pyGemTD.py:192-196 | Path tiles that are not blocked become free ground. Blocked tiles and tiles off the path are unchanged. |
| Board.Game.TileForPosition | pyGemTD.py:198-199 | A tile exists exactly for pixel positions inside the 1000 x 1000 window. It is the board tile whose 10-pixel square holds the position. |

## Left out

- The pygame layer is I/O on an external library and is not modelled: display, clock, fonts, colour values, `Tile.draw`, the `background` queue and the event loop (pyGemTD.py:1-32, 105-109, 201-222). Colours are an enumeration.
- `cartesian_distance` (pyGemTD.py:49-53) uses floating-point `sqrt`. The heuristic is an abstract `dist` parameter, and the edge cost is the exact value 1.
- `random.choice([0, 0, math.inf])` (geneticAlgo.py:54) is a `choice` parameter. The 2/3 probability is not modelled.
- Logging, `print`, `__repr__`, `repr_fitness` and the `__main__` demo grid (geneticAlgo.py:4-6, 50, 57-58, 75-86; pyGemTD.py:3-6, 185) are output only.
- AStar.SelectMin: picks some node of least fScore, not the first one in Python's set iteration order. It also does not model the truthiness test `not current` at pyGemTD.py:73. For a falsy node such as `0`, `()` or `""`, the source replaces that node with the next one scanned, so it can expand a node whose fScore is not the least. Both callers pass only truthy nodes: `Tile` objects and 2-tuples.
- AStar.Search: needs a ghost finite node set that holds `start` and is closed under `ne`, so that termination can be proved. Both callers have one: the 100 x 100 board, and the grid cells plus the start.
- AStar.ReconstructPath: needs a ghost score map under which every `cameFrom` link strictly descends. This witnesses that the chain is acyclic; the source would loop forever otherwise.
- AStar.Search: does not claim the returned path is shortest. The callers' heuristic does not make it so.
- Genetic.Individual.Randomize: the source retries without bound. The model makes at most `maxAttempts` draws, so `is_valid` is guaranteed on return only when one of those draws connects the waypoints.
- Genetic.Population.Initialize: inherits the bounded retry. A new individual is valid, or every one of its `maxAttempts` draws failed.
- Genetic.Individual.CalculateFitness: does not model the source's `cartesian_distance` call on tuples at geneticAlgo.py:34-35, which would raise. It searches with the coordinate heuristic and unit cost that were evidently intended.
- Board.Game.MakePath: does not model the exception `path.extend(False)` raises on a failed segment. It reports `ok == false`, with the path unchanged, as the exception leaves it.
- Board.Game.TileForPosition: does not model the `KeyError` for a position outside the window. It returns `None` instead.
- A ragged grid, with a row shorter than the grid is long, is not modelled faithfully. Such a cell counts as blocked, where geneticAlgo.py:23 would raise `IndexError`. Every grid the source builds is 40 x 40.
- Fitness values are exact naturals. The `math.inf` sentinel is the `Infeasible` constructor.
