/**
 * The tower-defence board: a 100 x 100 grid of 10-pixel tiles, each free,
 * blocked or part of a waypoint block. The game asks A* for a route from
 * the start tile through every waypoint to the end tile, paints that route
 * and clears it again before the next search.
 */
module Board {
  import opened Wrappers
  import opened Geometry
  import opened AStar

  /** What a tile is for the path search: only Blocked tiles stop creeps. */
  datatype TileType = Free | Blocked | Waypoint

  /** The colours a tile is painted in. */
  datatype Color = Ground | GroundBlocked | GroundWaypoint | GroundPath

  /** Window size in pixels. */
  const Width: int := 1000
  const Height: int := 1000

  /** Side of a tile in pixels. */
  const TileSize: int := 10

  /** Tiles per side: Width / TileSize == Height / TileSize. */
  const BoardSize: int := 100

  predicate OnBoard(c: Coord)
  {
    0 <= c.0 < BoardSize && 0 <= c.1 < BoardSize
  }

  class Tile {
    const x: int
    const y: int
    var color: Color
    var tileType: TileType
    /** The label drawn on the tile: `Some(i)` stands for the decimal text `str(i)`, `None` for no label. */
    var text: Option<nat>

    function Pos(): Coord
    {
      (x, y)
    }

    /** A new tile is free ground without a label. */
    constructor (x: int, y: int)
      ensures this.x == x && this.y == y
      ensures color == Ground && tileType == Free && text == None
    {
      this.x := x;
      this.y := y;
      color := Ground;
      tileType := Free;
      text := None;
    }

    method Clear()
      modifies this
      ensures color == Ground && tileType == Free && text == old(text)
    {
      color := Ground;
      tileType := Free;
    }

    method Block()
      modifies this
      ensures color == GroundBlocked && tileType == Blocked && text == old(text)
    {
      color := GroundBlocked;
      tileType := Blocked;
    }

    method MarkWaypoint()
      modifies this
      ensures color == GroundWaypoint && tileType == Waypoint && text == old(text)
    {
      color := GroundWaypoint;
      tileType := Waypoint;
    }

    /** Painting a tile as path changes its colour only, not its type. */
    method MarkPath()
      modifies this
      ensures color == GroundPath && tileType == old(tileType) && text == old(text)
    {
      color := GroundPath;
    }
  }

  /** Every tile of the board sits under its own coordinates. */
  predicate Coherent(g: map<Coord, Tile>)
  {
    forall c :: c in g ==> g[c].Pos() == c
  }

  /** A neighbour candidate is kept when it is on the board and not blocked. */
  predicate Passable(g: map<Coord, Tile>, types: map<Coord, TileType>, c: Coord)
  {
    OnBoard(c) && c in g && c in types && types[c] != Blocked
  }

  /** The tiles under the passable coordinates of `cs`, in order. */
  function KeepPassable(g: map<Coord, Tile>, types: map<Coord, TileType>, cs: seq<Coord>): (r: seq<Tile>)
    ensures |r| <= |cs|
    ensures forall t :: t in r ==> exists c :: c in cs && Passable(g, types, c) && g[c] == t
    ensures forall c :: c in cs && Passable(g, types, c) ==> g[c] in r
  {
    if cs == [] then []
    else
      var rest := KeepPassable(g, types, cs[..|cs| - 1]);
      var c := cs[|cs| - 1];
      assert forall d :: d in cs <==> d in cs[..|cs| - 1] || d == c;
      if Passable(g, types, c) then rest + [g[c]] else rest
  }

  /** The four candidates of get_neighbor, in its order: left, right, up, down. */
  function Around(t: Tile): (cs: seq<Coord>)
    ensures forall c :: c in cs <==> Adjacent(t.Pos(), c)
  {
    [(t.x - 1, t.y), (t.x + 1, t.y), (t.x, t.y - 1), (t.x, t.y + 1)]
  }

  /**
   * The neighbours of a tile on a board snapshot: exactly the orthogonally
   * adjacent tiles of the board that are not blocked.
   */
  function TileNeighbors(g: map<Coord, Tile>, types: map<Coord, TileType>, t: Tile): (r: seq<Tile>)
    ensures |r| <= 4
    ensures Coherent(g) ==>
      forall n :: n in r ==> n in g.Values && Adjacent(t.Pos(), n.Pos()) && Passable(g, types, n.Pos())
    ensures Coherent(g) ==>
      forall n :: n in g.Values && Adjacent(t.Pos(), n.Pos()) && Passable(g, types, n.Pos()) ==> n in r
  {
    var r := KeepPassable(g, types, Around(t));
    assert Coherent(g) ==> forall n :: n in g.Values ==> g[n.Pos()] == n;
    r
  }

  /** On a whole board, the neighbours are the adjacent tiles that are not blocked. */
  lemma UnblockedNeighbors(g: map<Coord, Tile>, types: map<Coord, TileType>, t: Tile)
    requires Coherent(g) && forall c :: c in g <==> OnBoard(c)
    requires types.Keys == g.Keys && forall c :: c in g ==> types[c] == g[c].tileType
    ensures forall n :: n in TileNeighbors(g, types, t) <==>
      n in g.Values && Adjacent(t.Pos(), n.Pos()) && n.tileType != Blocked
  {
    forall n | n in g.Values
      ensures Passable(g, types, n.Pos()) <==> n.tileType != Blocked
    {
      assert g[n.Pos()] == n;
    }
  }

  /** The neighbour function handed to A*. */
  function TileGraph(g: map<Coord, Tile>, types: map<Coord, TileType>): Tile -> seq<Tile>
  {
    t => TileNeighbors(g, types, t)
  }

  /** The tiles of a board are a universe A* can search in. */
  lemma TilesClosed(g: map<Coord, Tile>, types: map<Coord, TileType>)
    requires Coherent(g)
    ensures ClosedUnder(g.Values, TileGraph(g, types))
    ensures PositiveCosts(UnitCost, TileGraph(g, types), g.Values)
  {
  }

  /**
   * The loop of make_path: A* from each route point to the next, on one
   * snapshot of the board, appending each segment found. It stops at the
   * first segment A* cannot find, which then has no path at all.
   */
  method SearchLegs(g: map<Coord, Tile>, types: map<Coord, TileType>, route: seq<Coord>, dist: (Coord, Coord) -> nat)
    returns (found: bool, path: seq<Tile>, segments: seq<seq<Tile>>)
    requires Coherent(g) && |route| > 0
    requires forall i :: 0 <= i < |route| ==> route[i] in g
    ensures |segments| < |route|
    ensures forall j :: 0 <= j < |segments| ==> IsPath(segments[j], g[route[j]], g[route[j + 1]], TileGraph(g, types))
    ensures path == Concat(segments)
    ensures forall k :: 0 <= k < |path| ==> path[k] in g.Values
    ensures found <==> |segments| == |route| - 1
    ensures !found ==> !Reachable(g[route[|segments|]], g[route[|segments| + 1]], TileGraph(g, types), g.Values)
  {
    var ne := TileGraph(g, types);
    TilesClosed(g, types);
    path := [];
    segments := [];
    for i := 0 to |route| - 1
      invariant |segments| == i && path == Concat(segments)
      invariant forall k :: 0 <= k < |path| ==> path[k] in g.Values
      invariant forall j :: 0 <= j < i ==> IsPath(segments[j], g[route[j]], g[route[j + 1]], ne)
    {
      var a := g[route[i]];
      var b := g[route[i + 1]];
      var search := Search(a, b, (w: Tile) => dist(a.Pos(), w.Pos()), UnitCost, ne, g.Values);
      if search.NotFound? {
        return false, path, segments;
      }
      path := path + search.path;
      segments := segments + [search.path];
    }
    found := true;
  }

  /**
   * Joined segments that chain the route's points: the joined path is as long
   * as the segments together, meets each route point where its segment
   * begins, and ends at the last route point.
   */
  lemma LegsJoin(g: map<Coord, Tile>, types: map<Coord, TileType>, route: seq<Coord>, segments: seq<seq<Tile>>)
    requires |route| > 1 && |segments| == |route| - 1
    requires forall i :: 0 <= i < |route| ==> route[i] in g
    requires forall j :: 0 <= j < |segments| ==> IsPath(segments[j], g[route[j]], g[route[j + 1]], TileGraph(g, types))
    ensures |Concat(segments)| == TotalLength(segments)
    ensures forall i :: 0 <= i < |segments| ==>
      TotalLength(segments[..i]) < |Concat(segments)| && Concat(segments)[TotalLength(segments[..i])] == g[route[i]]
    ensures |Concat(segments)| > 0 && Concat(segments)[|Concat(segments)| - 1] == g[route[|route| - 1]]
  {
    ConcatLength(segments);
    forall i | 0 <= i < |segments|
      ensures TotalLength(segments[..i]) < |Concat(segments)| && Concat(segments)[TotalLength(segments[..i])] == g[route[i]]
    {
      assert IsPath(segments[i], g[route[i]], g[route[i + 1]], TileGraph(g, types));
      ConcatVisitsInOrder(segments, i);
    }
    var last := |segments| - 1;
    assert segments == segments[..last] + [segments[last]];
    assert Concat(segments) == Concat(segments[..last]) + segments[last];
  }

  /** A waypoint marks the 4 x 4 block reaching one tile up-left and two down-right of it. */
  predicate InWaypointBlock(p: Coord, c: Coord)
  {
    p.0 - 1 <= c.0 <= p.0 + 2 && p.1 - 1 <= c.1 <= p.1 + 2
  }

  class Game {
    var grid: map<Coord, Tile>
    const start: Coord := (0, 5)
    const waypoints: seq<Coord> := [(10, 5), (10, 50), (90, 50), (90, 5), (50, 5), (50, 80)]
    const end: Coord := (99, 80)
    /** The route creeps walk, as computed by the last successful MakePath. */
    var path: seq<Tile>

    /** The grid holds one tile per board coordinate and the path is made of board tiles. */
    ghost predicate Valid()
      reads this
    {
      && (forall c :: c in grid <==> OnBoard(c))
      && Coherent(grid)
      && (forall i :: 0 <= i < |path| ==> path[i] in grid.Values)
    }

    /** The tile types of the board, read from its tiles. */
    function Types(): (types: map<Coord, TileType>)
      reads this`grid, grid.Values
      ensures types.Keys == grid.Keys
      ensures forall c :: c in grid ==> types[c] == grid[c].tileType
    {
      map c | c in grid :: grid[c].tileType
    }

    /** Start, the waypoints in order, and end. */
    function Route(): (route: seq<Coord>)
      ensures |route| == |waypoints| + 2 && route[0] == start && route[|route| - 1] == end
      ensures forall i :: 0 <= i < |route| ==> OnBoard(route[i])
    {
      var route := [start] + waypoints + [end];
      assert route == [(0, 5), (10, 5), (10, 50), (90, 50), (90, 5), (50, 5), (50, 80), (99, 80)];
      route
    }

    /** A fresh board of free, unlabelled tiles and an empty path. */
    constructor ()
      ensures Valid() && path == []
      ensures forall c :: c in grid ==>
        fresh(grid[c]) && grid[c].tileType == Free && grid[c].color == Ground && grid[c].text == None
    {
      var g: map<Coord, Tile> := map[];
      for x := 0 to BoardSize
        invariant forall c :: c in g <==> 0 <= c.0 < x && 0 <= c.1 < BoardSize
        invariant Coherent(g)
        invariant forall c :: c in g ==>
          fresh(g[c]) && g[c].tileType == Free && g[c].color == Ground && g[c].text == None
      {
        for y := 0 to BoardSize
          invariant forall c :: c in g <==> (0 <= c.0 < x && 0 <= c.1 < BoardSize) || (c.0 == x && 0 <= c.1 < y)
          invariant Coherent(g)
          invariant forall c :: c in g ==>
            fresh(g[c]) && g[c].tileType == Free && g[c].color == Ground && g[c].text == None
        {
          var t := new Tile(x, y);
          g := g[(x, y) := t];
        }
      }
      grid := g;
      path := [];
    }

    /**
     * The candidates of get_neighbor that lie on the board and are not
     * blocked, in the order the source tries them. TileNeighbors is the same
     * function on a board snapshot; it is the one A* runs on.
     */
    method GetNeighbor(tile: Tile) returns (result: seq<Tile>)
      requires Valid()
      ensures result == TileNeighbors(grid, Types(), tile)
      ensures |result| <= 4 && forall n :: n in result ==> OnBoard(n.Pos())
      ensures forall n :: n in result <==>
        n in grid.Values && Adjacent(tile.Pos(), n.Pos()) && n.tileType != Blocked
    {
      result := [];
      var coords := Around(tile);
      ghost var types := Types();
      for i := 0 to |coords|
        invariant result == KeepPassable(grid, types, coords[..i])
      {
        assert coords[..i + 1][..i] == coords[..i];
        var (x, y) := coords[i];
        if x < 0 || y < 0 || x > 99 || y > 99 {
          continue;
        }
        var n := grid[(x, y)];
        if n.tileType != Blocked {
          result := result + [n];
        }
      }
      assert coords[..|coords|] == coords;
      UnblockedNeighbors(grid, types, tile);
    }

    /**
     * Runs A* from each route point to the next and, when every segment is
     * found, makes the path their concatenation. When a segment is missing
     * the path is left as it was and `ok` is false.
     */
    method MakePath(dist: (Coord, Coord) -> nat) returns (ok: bool, ghost segments: seq<seq<Tile>>)
      requires Valid()
      modifies this
      ensures Valid() && grid == old(grid)
      ensures |segments| < |Route()|
      ensures forall i :: 0 <= i < |segments| ==>
        IsPath(segments[i], grid[Route()[i]], grid[Route()[i + 1]], TileGraph(grid, Types()))
      ensures ok ==> |segments| == |Route()| - 1 && path == Concat(segments)
      ensures ok ==> |path| == TotalLength(segments)
      ensures ok ==> forall i :: 0 <= i < |segments| ==>
        TotalLength(segments[..i]) < |path| && path[TotalLength(segments[..i])] == grid[Route()[i]]
      ensures ok ==> |path| > 0 && path[|path| - 1] == grid[end]
      ensures !ok ==> path == old(path) && |segments| < |Route()| - 1
      ensures !ok ==> !Reachable(grid[Route()[|segments|]], grid[Route()[|segments| + 1]], TileGraph(grid, Types()), grid.Values)
    {
      var wp := Route();
      var found, joined, legs := SearchLegs(grid, Types(), wp, dist);
      segments := legs;
      if !found {
        ok := false;
        return;
      }
      path := joined;
      ok := true;
      LegsJoin(grid, Types(), wp, segments);
    }

    /**
     * Marks the 4 x 4 block around every waypoint as waypoint tiles and
     * labels each waypoint tile with its number; every other tile keeps its
     * type and colour.
     */
    method ShowWaypoints()
      requires Valid()
      modifies grid.Values
      ensures forall t :: t in grid.Values ==>
        if Covered(t.Pos(), |waypoints|)
        then t.tileType == Waypoint && t.color == GroundWaypoint
        else t.tileType == old(t.tileType) && t.color == old(t.color)
      ensures forall t :: t in grid.Values ==> t.text == Label(t.Pos(), |waypoints|, old(t.text))
    {
      for i := 0 to |waypoints|
        invariant forall t :: t in grid.Values ==>
          if Covered(t.Pos(), i)
          then t.tileType == Waypoint && t.color == GroundWaypoint
          else t.tileType == old(t.tileType) && t.color == old(t.color)
        invariant forall t :: t in grid.Values ==> t.text == Label(t.Pos(), i, old(t.text))
      {
        ShowWaypoint(i);
      }
    }

    /** One step of show_waypoints: marks the block of waypoint i and labels it with i. */
    method ShowWaypoint(i: nat)
      requires Valid() && i < |waypoints|
      modifies grid.Values
      ensures forall t :: t in grid.Values ==>
        if InWaypointBlock(waypoints[i], t.Pos())
        then t.tileType == Waypoint && t.color == GroundWaypoint
        else t.tileType == old(t.tileType) && t.color == old(t.color)
      ensures forall t :: t in grid.Values ==> t.text == if t.Pos() == waypoints[i] then Some(i) else old(t.text)
    {
      WaypointsInside();
      var point := waypoints[i];
      MarkBlock(point);
      var tile := grid[point];
      tile.text := Some(i);
    }

    /** c lies in the block of one of the first i waypoints. */
    predicate Covered(c: Coord, i: nat)
      requires i <= |waypoints|
    {
      i > 0 && (Covered(c, i - 1) || InWaypointBlock(waypoints[i - 1], c))
    }

    /**
     * The label c carries after the first i waypoints are labelled, when it
     * carried `before`: the number of the last of them at c.
     */
    function Label(c: Coord, i: nat, before: Option<nat>): Option<nat>
      requires i <= |waypoints|
    {
      if i == 0 then before
      else if waypoints[i - 1] == c then Some(i - 1)
      else Label(c, i - 1, before)
    }

    /**
     * The waypoints are distinct, so after show_waypoints each waypoint
     * tile carries its own number and every other tile its old label.
     */
    lemma {:induction false} LabelMeans(c: Coord, i: nat, before: Option<nat>)
      requires i <= |waypoints|
      ensures forall j :: 0 <= j < i && waypoints[j] == c ==> Label(c, i, before) == Some(j)
      ensures c !in waypoints[..i] ==> Label(c, i, before) == before
    {
      WaypointsInside();
      if i > 0 {
        LabelMeans(c, i - 1, before);
        assert waypoints[..i] == waypoints[..i - 1] + [waypoints[i - 1]];
      }
    }

    /** Covered, stated without recursion: some waypoint before i has c in its block. */
    lemma {:induction false} CoveredMeans(c: Coord, i: nat)
      requires i <= |waypoints|
      ensures Covered(c, i) <==> exists j :: 0 <= j < i && InWaypointBlock(waypoints[j], c)
    {
      if i > 0 {
        CoveredMeans(c, i - 1);
        if InWaypointBlock(waypoints[i - 1], c) {
          assert exists j :: 0 <= j < i && InWaypointBlock(waypoints[j], c);
        }
        if j :| 0 <= j < i && InWaypointBlock(waypoints[j], c) {
          if j < i - 1 {
            assert exists j :: 0 <= j < i - 1 && InWaypointBlock(waypoints[j], c);
          }
        }
      }
    }

    /** Marks the 4 x 4 block of one waypoint, leaving every other tile as it was. */
    method MarkBlock(point: Coord)
      requires Valid()
      requires 1 <= point.0 <= BoardSize - 3 && 1 <= point.1 <= BoardSize - 3
      modifies grid.Values
      ensures forall t :: t in grid.Values ==>
        if InWaypointBlock(point, t.Pos())
        then t.tileType == Waypoint && t.color == GroundWaypoint
        else t.tileType == old(t.tileType) && t.color == old(t.color)
      ensures forall t :: t in grid.Values ==> t.text == old(t.text)
    {
      for x := 0 to 4
        invariant forall t :: t in grid.Values ==>
          if InWaypointBlock(point, t.Pos()) && t.x < point.0 - 1 + x
          then t.tileType == Waypoint && t.color == GroundWaypoint
          else t.tileType == old(t.tileType) && t.color == old(t.color)
        invariant forall t :: t in grid.Values ==> t.text == old(t.text)
      {
        for y := 0 to 4
          invariant forall t :: t in grid.Values ==>
            if InWaypointBlock(point, t.Pos()) && (t.x < point.0 - 1 + x || (t.x == point.0 - 1 + x && t.y < point.1 - 1 + y))
            then t.tileType == Waypoint && t.color == GroundWaypoint
            else t.tileType == old(t.tileType) && t.color == old(t.color)
          invariant forall t :: t in grid.Values ==> t.text == old(t.text)
        {
          var tile := grid[(point.0 - 1 + x, point.1 - 1 + y)];
          tile.MarkWaypoint();
        }
      }
    }

    /** Every waypoint's block lies on the board and no waypoint is listed twice. */
    lemma WaypointsInside()
      ensures forall j :: 0 <= j < |waypoints| ==>
        1 <= waypoints[j].0 <= BoardSize - 3 && 1 <= waypoints[j].1 <= BoardSize - 3
      ensures forall j, k :: 0 <= j < k < |waypoints| ==> waypoints[j] != waypoints[k]
    {
    }

    /** Paints every path tile as path; no tile changes type. */
    method ShowPath()
      requires Valid()
      modifies grid.Values
      ensures forall t :: t in grid.Values ==>
        t.color == (if t in path then GroundPath else old(t.color))
      ensures forall t :: t in grid.Values ==> t.tileType == old(t.tileType) && t.text == old(t.text)
    {
      for i := 0 to |path|
        invariant forall t :: t in grid.Values ==>
          t.color == (if t in path[..i] then GroundPath else old(t.color))
        invariant forall t :: t in grid.Values ==> t.tileType == old(t.tileType) && t.text == old(t.text)
      {
        assert path[..i + 1] == path[..i] + [path[i]];
        path[i].MarkPath();
      }
      assert path[..|path|] == path;
    }

    /**
     * Turns every path tile that is not blocked back into free ground;
     * blocked tiles and tiles off the path are left as they were.
     */
    method ClearPath()
      requires Valid()
      modifies grid.Values
      ensures forall t :: t in grid.Values ==>
        if t in path && old(t.tileType) != Blocked
        then t.tileType == Free && t.color == Ground
        else t.tileType == old(t.tileType) && t.color == old(t.color)
      ensures forall t :: t in grid.Values ==> t.text == old(t.text)
    {
      for i := 0 to |path|
        invariant forall t :: t in grid.Values ==>
          if t in path[..i] && old(t.tileType) != Blocked
          then t.tileType == Free && t.color == Ground
          else t.tileType == old(t.tileType) && t.color == old(t.color)
        invariant forall t :: t in grid.Values ==> t.text == old(t.text)
      {
        assert path[..i + 1] == path[..i] + [path[i]];
        var tile := path[i];
        if tile.tileType != Blocked {
          tile.Clear();
        }
      }
      assert path[..|path|] == path;
    }

    /**
     * The tile under a pixel position: the one whose 10-pixel square holds
     * it. Positions outside the window have no tile.
     */
    function TileForPosition(pos: (int, int)): (r: Option<Tile>)
      requires Valid()
      reads this
      ensures r.Some? <==> 0 <= pos.0 < Width && 0 <= pos.1 < Height
      ensures r.Some? ==> r.value in grid.Values
      ensures r.Some? ==>
        r.value.x * TileSize <= pos.0 < (r.value.x + 1) * TileSize &&
        r.value.y * TileSize <= pos.1 < (r.value.y + 1) * TileSize
    {
      var c := (pos.0 / TileSize, pos.1 / TileSize);
      if c in grid then Some(grid[c]) else None
    }
  }
}
