/**
 * The maze optimiser of geneticAlgo.py: an `Individual` is a square grid of
 * open and blocked cells with a cached fitness (the summed node counts of
 * the A* paths between consecutive waypoints) and a validity flag; a
 * `Population` is a list of individuals filled up to a fixed size.
 */
module Genetic {
  import opened Geometry
  import opened AStar

  /** A grid weight: 0 (open) or `math.inf` (blocked). */
  datatype Cell = Open | Blocked

  /** The fitness: a node count, or the `math.inf` sentinel of an infeasible grid. */
  datatype Fitness = Finite(length: nat) | Infeasible

  /** `grid[x][y]` is the cell at position (x, y). */
  type Grid = seq<seq<Cell>>

  /** `Individual.grid_size`. */
  const GridSize: nat := 40

  /** The waypoints every path must visit in order (`calculate_fitness`). */
  const Waypoints: seq<Coord> := [(0, 5), (5, 5), (5, 19), (33, 19), (33, 5), (19, 5), (19, 33), (39, 32)]

  /** `Population.size`. */
  const PopulationSize: nat := 20

  // ---------------------------------------------------------------------
  // Individual.get_neighbor
  // ---------------------------------------------------------------------

  /**
   * Both coordinates lie in [0, len(grid)) and the cell has weight 0. (On a
   * ragged grid, where the source would index past a short row, a cell
   * beyond its row counts as not open.)
   */
  predicate IsOpen(grid: Grid, c: Coord)
  {
    && 0 <= c.0 < |grid| && 0 <= c.1 < |grid|
    && c.1 < |grid[c.0]| && grid[c.0][c.1] == Open
  }

  /** The open cells of cs, in their order. */
  function KeepOpen(grid: Grid, cs: seq<Coord>): (r: seq<Coord>)
    ensures forall n :: n in r <==> n in cs && IsOpen(grid, n)
    ensures |r| <= |cs|
  {
    if cs == [] then []
    else
      var last := cs[|cs| - 1];
      KeepOpen(grid, cs[..|cs| - 1]) + (if IsOpen(grid, last) then [last] else [])
  }

  /**
   * `Individual.get_neighbor`: of the four orthogonal neighbours, in the
   * order right, left, down, up, those inside the grid with weight 0.
   */
  function Neighbors(grid: Grid, c: Coord): (r: seq<Coord>)
    ensures forall n :: n in r <==> Adjacent(c, n) && IsOpen(grid, n)
    ensures |r| <= 4
  {
    var (x, y) := c;
    KeepOpen(grid, [(x + 1, y), (x - 1, y), (x, y + 1), (x, y - 1)])
  }

  /** The neighbour function handed to A*. */
  function GridGraph(grid: Grid): Coord -> seq<Coord>
  {
    c => Neighbors(grid, c)
  }

  /** All positions of an n-by-n grid. */
  function Cells(n: nat): set<Coord>
  {
    set x: int, y: int | 0 <= x < n && 0 <= y < n :: (x, y)
  }

  /** The finite set a search from `start` on `grid` stays within. */
  function Universe(grid: Grid, start: Coord): set<Coord>
  {
    Cells(|grid|) + {start}
  }

  lemma UniverseClosed(grid: Grid, start: Coord)
    ensures start in Universe(grid, start)
    ensures ClosedUnder(Universe(grid, start), GridGraph(grid))
    ensures PositiveCosts(UnitCost, GridGraph(grid), Universe(grid, start))
  {
    forall a, b | a in Universe(grid, start) && b in GridGraph(grid)(a)
      ensures b in Universe(grid, start)
    {
      assert IsOpen(grid, b);
      assert b == (b.0, b.1);
    }
  }

  /** Every step of a path on the grid is an orthogonal move, so it is at least Manhattan-long. */
  lemma PathAtLeastManhattan(grid: Grid, p: seq<Coord>, a: Coord, b: Coord)
    requires IsPath(p, a, b, GridGraph(grid))
    ensures |p| >= Manhattan(a, b) + 1
  {
    assert UnitSteps(p) by {
      forall i | 0 < i < |p| ensures Adjacent(p[i - 1], p[i]) {
        assert p[i] in GridGraph(grid)(p[i - 1]);
      }
    }
    WalkAtLeastManhattan(p);
  }

  // ---------------------------------------------------------------------
  // Individual.calculate_fitness: what it decides
  // ---------------------------------------------------------------------

  /** Segment i, from Waypoints[i] to Waypoints[i + 1], has a path on the grid. */
  ghost predicate SegmentReachable(grid: Grid, i: nat)
    requires i < |Waypoints| - 1
  {
    Reachable(Waypoints[i], Waypoints[i + 1], GridGraph(grid), Universe(grid, Waypoints[i]))
  }

  /**
   * Any grid path between the waypoints of segment i makes it reachable:
   * the search universe does not hide paths.
   */
  lemma PathMakesSegmentReachable(grid: Grid, i: nat, p: seq<Coord>)
    requires i < |Waypoints| - 1 && IsPath(p, Waypoints[i], Waypoints[i + 1], GridGraph(grid))
    ensures SegmentReachable(grid, i)
  {
    UniverseClosed(grid, Waypoints[i]);
    PathStaysWithin(p, Waypoints[i], Waypoints[i + 1], GridGraph(grid), Universe(grid, Waypoints[i]));
  }

  /** Every consecutive pair of waypoints is connected on the grid. */
  ghost predicate AllSegmentsReachable(grid: Grid)
  {
    forall i :: 0 <= i < |Waypoints| - 1 ==> SegmentReachable(grid, i)
  }

  /** Sum over the first k segments of the fewest nodes any path of that segment can have. */
  function LowerBound(k: nat): nat
    requires k < |Waypoints|
  {
    if k == 0 then 0 else LowerBound(k - 1) + Manhattan(Waypoints[k - 1], Waypoints[k]) + 1
  }

  /** The lower bound over all seven segments. */
  lemma LowerBoundOfAllSegments()
    ensures LowerBound(|Waypoints| - 1) == 131
  {
    assert LowerBound(1) == 6;
    assert LowerBound(2) == 21;
    assert LowerBound(3) == 50;
    assert LowerBound(4) == 65;
    assert LowerBound(5) == 80;
    assert LowerBound(6) == 109;
  }

  /** One more segment found adds its length to the total and keeps it above the bound. */
  lemma SegmentAdds(grid: Grid, segments: seq<seq<Coord>>, p: seq<Coord>)
    requires |segments| < |Waypoints| - 1
    requires IsPath(p, Waypoints[|segments|], Waypoints[|segments| + 1], GridGraph(grid))
    requires TotalLength(segments) >= LowerBound(|segments|)
    ensures TotalLength(segments + [p]) == TotalLength(segments) + |p|
    ensures TotalLength(segments + [p]) >= LowerBound(|segments| + 1)
  {
    PathAtLeastManhattan(grid, p, Waypoints[|segments|], Waypoints[|segments| + 1]);
    assert (segments + [p])[..|segments|] == segments;
  }

  /** `segs` are grid paths joining each waypoint to the next, one per segment. */
  ghost predicate SegmentsOn(grid: Grid, segs: seq<seq<Coord>>)
  {
    && |segs| == |Waypoints| - 1
    && forall j :: 0 <= j < |segs| ==> IsPath(segs[j], Waypoints[j], Waypoints[j + 1], GridGraph(grid))
  }

  // ---------------------------------------------------------------------
  // Individual.randomize: the random draws
  // ---------------------------------------------------------------------

  /**
   * Row x of the grid drawn on attempt k: `choice(k, x, y)` stands for the
   * `random.choice([0, 0, math.inf])` made for cell (x, y).
   */
  function DrawRow(choice: (nat, nat, nat) -> Cell, k: nat, x: nat): (row: seq<Cell>)
    ensures |row| == GridSize
  {
    seq(GridSize, y requires 0 <= y => choice(k, x, y))
  }

  /** The grid drawn on attempt k: `grid_size` rows of `grid_size` cells. */
  function Draw(choice: (nat, nat, nat) -> Cell, k: nat): (grid: Grid)
    ensures |grid| == GridSize && forall x :: 0 <= x < GridSize ==> grid[x] == DrawRow(choice, k, x)
  {
    seq(GridSize, x requires 0 <= x => DrawRow(choice, k, x))
  }

  /**
   * The loop of `calculate_fitness`: A* from each waypoint to the next on
   * `grid`, summing the lengths of the paths found. It stops at the first
   * segment without a path.
   */
  method SearchSegments(grid: Grid, dist: (Coord, Coord) -> nat)
    returns (found: bool, total: nat, segments: seq<seq<Coord>>)
    ensures |segments| <= |Waypoints| - 1
    ensures forall j :: 0 <= j < |segments| ==> IsPath(segments[j], Waypoints[j], Waypoints[j + 1], GridGraph(grid))
    ensures forall j :: 0 <= j < |segments| ==> SegmentReachable(grid, j)
    ensures total == TotalLength(segments) && total >= LowerBound(|segments|)
    ensures found <==> |segments| == |Waypoints| - 1
    ensures !found ==> !SegmentReachable(grid, |segments|)
  {
    var path := Waypoints;
    total := 0;
    segments := [];
    for i := 0 to |path| - 1
      invariant |segments| == i
      invariant forall j :: 0 <= j < i ==> IsPath(segments[j], path[j], path[j + 1], GridGraph(grid))
      invariant forall j :: 0 <= j < i ==> SegmentReachable(grid, j)
      invariant total == TotalLength(segments) && total >= LowerBound(i)
    {
      var a := path[i];
      UniverseClosed(grid, a);
      var search := Search(a, path[i + 1], w => dist(a, w), UnitCost, GridGraph(grid), Universe(grid, a));
      if search.NotFound? {
        return false, total, segments;
      }
      SegmentAdds(grid, segments, search.path);
      total := total + |search.path|;
      segments := segments + [search.path];
    }
    found := true;
  }

  // ---------------------------------------------------------------------
  // Individual
  // ---------------------------------------------------------------------

  class Individual {
    var grid: Grid
    var fitness: Fitness
    var isValid: bool

    /**
     * A valid individual's grid connects every pair of consecutive
     * waypoints and its fitness is a node count no smaller than LowerBound.
     */
    ghost predicate Valid()
      reads this
    {
      isValid ==> && AllSegmentsReachable(grid)
                  && fitness.Finite?
                  && fitness.length >= LowerBound(|Waypoints| - 1)
    }

    /** `Individual.__init__`. */
    constructor ()
      ensures grid == [] && fitness == Finite(0) && !isValid
      ensures Valid()
    {
      grid := [];
      fitness := Finite(0);
      isValid := false;
    }

    /**
     * `Individual.calculate_fitness`: searches the segments in order and
     * stops at the first one without a path. The ghost `segments` are the
     * paths found.
     */
    method CalculateFitness(dist: (Coord, Coord) -> nat) returns (ghost segments: seq<seq<Coord>>)
      modifies this
      ensures grid == old(grid) && Valid()
      ensures isValid <==> AllSegmentsReachable(grid)
      ensures |segments| <= |Waypoints| - 1
      ensures forall j :: 0 <= j < |segments| ==> IsPath(segments[j], Waypoints[j], Waypoints[j + 1], GridGraph(grid))
      ensures isValid ==> |segments| == |Waypoints| - 1 && fitness == Finite(TotalLength(segments))
      ensures !isValid ==> fitness == Infeasible
      ensures !isValid ==> |segments| < |Waypoints| - 1 && !SegmentReachable(grid, |segments|)
    {
      var found, result, legs := SearchSegments(grid, dist);
      segments := legs;
      if !found {
        isValid := false;
        fitness := Infeasible;
        return;
      }
      LowerBoundOfAllSegments();
      isValid := true;
      fitness := Finite(result);
    }

    /**
     * `Individual.randomize`: while the individual is not valid, draw a fresh
     * grid row by row and evaluate it. The source retries without bound;
     * here at most `maxAttempts` draws are made, `choice` supplies the
     * random cells, and `attempts` counts the draws made.
     */
    method Randomize(dist: (Coord, Coord) -> nat, choice: (nat, nat, nat) -> Cell, maxAttempts: nat)
      returns (attempts: nat)
      requires Valid()
      modifies this
      ensures Valid()
      ensures old(isValid) ==> attempts == 0 && grid == old(grid) && fitness == old(fitness) && isValid
      ensures attempts <= maxAttempts
      ensures forall k :: 0 <= k < attempts - 1 ==> !AllSegmentsReachable(Draw(choice, k))
      ensures attempts > 0 ==> grid == Draw(choice, attempts - 1) && (isValid <==> AllSegmentsReachable(grid))
      ensures !isValid ==> attempts == maxAttempts
      ensures attempts == 0 ==> grid == old(grid) && fitness == old(fitness) && isValid == old(isValid)
      ensures attempts > 0 && !isValid ==> fitness == Infeasible
      ensures attempts > 0 && isValid ==> exists segs :: SegmentsOn(grid, segs) && fitness == Finite(TotalLength(segs))
    {
      attempts := 0;
      ghost var segs: seq<seq<Coord>> := [];
      while !isValid && attempts < maxAttempts
        invariant Valid()
        invariant old(isValid) ==> attempts == 0 && grid == old(grid) && fitness == old(fitness) && isValid
        invariant attempts <= maxAttempts
        invariant forall k :: 0 <= k < attempts - 1 ==> !AllSegmentsReachable(Draw(choice, k))
        invariant attempts > 0 ==> grid == Draw(choice, attempts - 1) && (isValid <==> AllSegmentsReachable(grid))
        invariant attempts == 0 ==> grid == old(grid) && fitness == old(fitness) && isValid == old(isValid)
        invariant attempts > 0 && !isValid ==> fitness == Infeasible
        invariant attempts > 0 && isValid ==> SegmentsOn(grid, segs) && fitness == Finite(TotalLength(segs))
        decreases maxAttempts - attempts
      {
        ghost var fitnessBefore := fitness;
        grid := [];
        for x := 0 to GridSize
          invariant !isValid && fitness == fitnessBefore
          invariant |grid| == x && forall j :: 0 <= j < x ==> grid[j] == DrawRow(choice, attempts, j)
        {
          grid := grid + [DrawRow(choice, attempts, x)];
        }
        assert grid == Draw(choice, attempts);
        segs := CalculateFitness(dist);
        attempts := attempts + 1;
      }
    }
  }

  /** The draws of population slot s: `choice(s, k, x, y)`. */
  function SlotChoice(choice: (nat, nat, nat, nat) -> Cell, s: nat): (nat, nat, nat) -> Cell
  {
    (k: nat, x: nat, y: nat) => choice(s, k, x, y)
  }

  class Population {
    var individuals: seq<Individual>

    /** `Population.__init__`. */
    constructor ()
      ensures individuals == []
    {
      individuals := [];
    }

    /**
     * `Population.initialize`: appends freshly randomized individuals,
     * slot by slot, until there are `PopulationSize` of them; the ones
     * already present stay in place.
     */
    method Initialize(dist: (Coord, Coord) -> nat, choice: (nat, nat, nat, nat) -> Cell, maxAttempts: nat)
      modifies this
      ensures |individuals| == if |old(individuals)| < PopulationSize then PopulationSize else |old(individuals)|
      ensures individuals[..|old(individuals)|] == old(individuals)
      ensures forall j :: |old(individuals)| <= j < |individuals| ==> fresh(individuals[j]) && individuals[j].Valid()
      ensures forall j :: |old(individuals)| <= j < |individuals| ==>
                || individuals[j].isValid
                || forall k :: 0 <= k < maxAttempts ==> !AllSegmentsReachable(Draw(SlotChoice(choice, j), k))
    {
      var s := |individuals|;
      while s < PopulationSize
        invariant |old(individuals)| <= s
        invariant |old(individuals)| < PopulationSize ==> s <= PopulationSize
        invariant |old(individuals)| >= PopulationSize ==> s == |old(individuals)|
        invariant |individuals| == s
        invariant individuals[..|old(individuals)|] == old(individuals)
        invariant forall j :: |old(individuals)| <= j < s ==> fresh(individuals[j]) && individuals[j].Valid()
        invariant forall j :: |old(individuals)| <= j < s ==>
                    || individuals[j].isValid
                    || forall k :: 0 <= k < maxAttempts ==> !AllSegmentsReachable(Draw(SlotChoice(choice, j), k))
      {
        var i := new Individual();
        var attempts := i.Randomize(dist, SlotChoice(choice, s), maxAttempts);
        individuals := individuals + [i];
        s := s + 1;
      }
    }
  }
}
