/**
 * Generic A* search (pyGemTD.py `A_star` and `reconstruct_path`), shared by
 * the tower-defense board and the genetic optimiser.
 *
 * The search is parameterised by a heuristic `h`, an edge cost `d` and a
 * neighbour function `ne`. It keeps an open set and the `cameFrom`,
 * `gScore` and `fScore` maps, expands an open node of least `fScore`,
 * relaxes its neighbours, and rebuilds the path through `cameFrom` once
 * the goal is selected.
 */
module AStar {

  /** `A_star` returns either a list of nodes or `False`. */
  datatype SearchResult<N> = Found(path: seq<N>) | NotFound

  // ---------------------------------------------------------------------
  // Walks and reachability in the graph given by `ne`
  // ---------------------------------------------------------------------

  /** Each node of p after the first is a neighbour of the one before it. */
  ghost predicate IsWalk<N>(p: seq<N>, ne: N -> seq<N>)
  {
    forall i :: 0 < i < |p| ==> p[i] in ne(p[i - 1])
  }

  /** p is a walk from start to goal, both included. */
  ghost predicate IsPath<N>(p: seq<N>, start: N, goal: N, ne: N -> seq<N>)
  {
    |p| > 0 && p[0] == start && p[|p| - 1] == goal && IsWalk(p, ne)
  }

  /** p is a path from start to goal whose nodes all belong to `nodes`. */
  ghost predicate IsPathWithin<N>(older p: seq<N>, start: N, goal: N, ne: N -> seq<N>, nodes: set<N>)
  {
    IsPath(p, start, goal, ne) && forall i :: 0 <= i < |p| ==> p[i] in nodes
  }

  /**
   * goal can be reached from start by a walk through `nodes`. When `nodes`
   * holds start and is closed under `ne`, every walk from start stays in it
   * (WalkStaysInside), so this is plain reachability in the graph.
   */
  ghost predicate Reachable<N>(start: N, goal: N, ne: N -> seq<N>, nodes: set<N>)
  {
    exists p :: IsPathWithin(p, start, goal, ne, nodes)
  }

  /** Every edge of `ne` leaving a node of `nodes` has a positive cost. */
  ghost predicate PositiveCosts<N>(d: (N, N) -> nat, ne: N -> seq<N>, nodes: set<N>)
  {
    forall a, b :: a in nodes && b in ne(a) ==> d(a, b) > 0
  }

  /**
   * The edge cost both callers pass: the straight-line distance between two
   * orthogonal neighbours, which is 1. A* only ever asks for the cost of an
   * edge to a neighbour.
   */
  function UnitCost<N>(a: N, b: N): nat
  {
    1
  }

  /** No neighbour of a node of `nodes` lies outside `nodes`. */
  ghost predicate ClosedUnder<N>(nodes: set<N>, ne: N -> seq<N>)
  {
    forall a, b :: a in nodes && b in ne(a) ==> b in nodes
  }

  /** A walk that starts inside a neighbour-closed set never leaves it. */
  lemma {:induction false} WalkStaysInside<N>(p: seq<N>, nodes: set<N>, ne: N -> seq<N>, k: nat)
    requires |p| > 0 && p[0] in nodes && IsWalk(p, ne) && ClosedUnder(nodes, ne)
    requires k < |p|
    ensures p[k] in nodes
  {
    if k > 0 {
      WalkStaysInside(p, nodes, ne, k - 1);
      assert p[k] in ne(p[k - 1]);
    }
  }

  /**
   * In a neighbour-closed set that holds start, every path from start is a
   * path within the set, so Reachable there is plain reachability.
   */
  lemma PathStaysWithin<N>(p: seq<N>, start: N, goal: N, ne: N -> seq<N>, nodes: set<N>)
    requires start in nodes && ClosedUnder(nodes, ne) && IsPath(p, start, goal, ne)
    ensures IsPathWithin(p, start, goal, ne, nodes)
    ensures Reachable(start, goal, ne, nodes)
  {
    forall k | 0 <= k < |p|
      ensures p[k] in nodes
    {
      WalkStaysInside(p, nodes, ne, k);
    }
    assert IsPathWithin(p, start, goal, ne, nodes);
  }

  /** A neighbour-closed set that holds start but not goal separates them. */
  lemma ClosedSetSeparates<N>(nodes: set<N>, start: N, goal: N, ne: N -> seq<N>)
    requires start in nodes && goal !in nodes && ClosedUnder(nodes, ne)
    ensures forall universe :: !Reachable(start, goal, ne, universe)
  {
    forall universe, p | IsPathWithin(p, start, goal, ne, universe)
      ensures false
    {
      WalkStaysInside(p, nodes, ne, |p| - 1);
    }
  }

  // ---------------------------------------------------------------------
  // reconstruct_path
  // ---------------------------------------------------------------------

  /** Every predecessor link goes to a scored node with a strictly smaller score. */
  ghost predicate LinksDescend<N>(cameFrom: map<N, N>, gScore: map<N, nat>)
  {
    forall n :: n in cameFrom ==> n in gScore && cameFrom[n] in gScore && gScore[cameFrom[n]] < gScore[n]
  }

  /** Every predecessor link was recorded along an edge of `ne`. */
  ghost predicate LinksFollowEdges<N>(cameFrom: map<N, N>, ne: N -> seq<N>)
  {
    forall n :: n in cameFrom ==> n in ne(cameFrom[n])
  }

  /**
   * Walks `cameFrom` backwards from `current`, prepending each predecessor.
   * The ghost `gScore` only witnesses that the predecessor chain cannot cycle.
   */
  method ReconstructPath<N>(cameFrom: map<N, N>, current: N, ghost gScore: map<N, nat>)
    returns (path: seq<N>)
    requires current in gScore && LinksDescend(cameFrom, gScore)
    ensures |path| > 0 && path[|path| - 1] == current
    ensures path[0] !in cameFrom && path[0] in gScore
    ensures forall i :: 0 < i < |path| ==> path[i] in cameFrom && cameFrom[path[i]] == path[i - 1]
    ensures forall i :: 0 <= i < |path| ==> path[i] in gScore
  {
    var node := current;
    path := [node];
    while node in cameFrom
      invariant node in gScore
      invariant |path| > 0 && path[0] == node && path[|path| - 1] == current
      invariant forall i :: 0 < i < |path| ==> path[i] in cameFrom && cameFrom[path[i]] == path[i - 1]
      invariant forall i :: 0 <= i < |path| ==> path[i] in gScore
      decreases gScore[node]
    {
      node := cameFrom[node];
      path := [node] + path;
    }
  }

  // ---------------------------------------------------------------------
  // Choosing the node to expand
  // ---------------------------------------------------------------------

  /**
   * The scan over the open set: the first node seen is taken, and a later
   * one replaces it only when its fScore is strictly smaller. Which of
   * several minima wins depends on the set's iteration order, which the
   * model leaves open.
   */
  method SelectMin<N>(openSet: set<N>, fScore: map<N, nat>) returns (current: N)
    requires openSet != {} && openSet <= fScore.Keys
    ensures current in openSet
    ensures forall n :: n in openSet ==> fScore[current] <= fScore[n]
  {
    var remaining := openSet;
    current :| current in remaining;
    remaining := remaining - {current};
    while remaining != {}
      invariant remaining <= openSet && current in openSet
      invariant forall n :: n in openSet && n !in remaining ==> fScore[current] <= fScore[n]
      decreases remaining
    {
      var n :| n in remaining;
      if fScore[n] < fScore[current] {
        current := n;
      }
      remaining := remaining - {n};
    }
  }

  // ---------------------------------------------------------------------
  // Termination measure: the sum of the recorded g-scores
  // ---------------------------------------------------------------------

  ghost function Pick<N>(s: set<N>): N
    requires s != {}
  {
    var n :| n in s; n
  }

  ghost function GTerm<N>(gScore: map<N, nat>, n: N): nat
  {
    if n in gScore then gScore[n] else 0
  }

  /** Sum of the g-scores of the nodes of s that have one. */
  ghost function GTotal<N>(gScore: map<N, nat>, s: set<N>): nat
    decreases s
  {
    if s == {} then 0 else GTerm(gScore, Pick(s)) + GTotal(gScore, s - {Pick(s)})
  }

  lemma {:induction false} GTotalSplit<N>(gScore: map<N, nat>, s: set<N>, y: N)
    requires y in s
    ensures GTotal(gScore, s) == GTerm(gScore, y) + GTotal(gScore, s - {y})
    decreases s
  {
    var x := Pick(s);
    if x != y {
      GTotalSplit(gScore, s - {x}, y);
      GTotalSplit(gScore, s - {y}, x);
      assert s - {x} - {y} == s - {y} - {x};
    }
  }

  lemma {:induction false} GTotalAgree<N>(g1: map<N, nat>, g2: map<N, nat>, s: set<N>)
    requires forall n :: n in s ==> GTerm(g1, n) == GTerm(g2, n)
    ensures GTotal(g1, s) == GTotal(g2, s)
    decreases s
  {
    if s != {} {
      GTotalAgree(g1, g2, s - {Pick(s)});
    }
  }

  /** Lowering one recorded score lowers the sum. */
  lemma GTotalDecreases<N>(gScore: map<N, nat>, s: set<N>, y: N, v: nat)
    requires y in s && y in gScore && v < gScore[y]
    ensures GTotal(gScore[y := v], s) < GTotal(gScore, s)
  {
    var g2 := gScore[y := v];
    GTotalSplit(gScore, s, y);
    GTotalSplit(g2, s, y);
    GTotalAgree(gScore, g2, s - {y});
  }

  // ---------------------------------------------------------------------
  // A_star
  // ---------------------------------------------------------------------

  /** The facts about the search maps that hold before every iteration. */
  ghost predicate SearchInvariant<N>(start: N, goal: N, h: N -> nat, ne: N -> seq<N>, nodes: set<N>,
                                     openSet: set<N>, cameFrom: map<N, N>,
                                     gScore: map<N, nat>, fScore: map<N, nat>)
  {
    && start in gScore && gScore[start] == 0
    && gScore.Keys <= nodes
    && openSet <= gScore.Keys
    && fScore.Keys == gScore.Keys
    && (forall n :: n in gScore ==> fScore[n] == gScore[n] + h(n))
    && LinksDescend(cameFrom, gScore)
    && LinksFollowEdges(cameFrom, ne)
    && (forall n :: n in gScore ==> n == start || n in cameFrom)
    && (goal in gScore ==> goal in openSet)
  }

  /** Every scored node that has left the open set has all its neighbours scored. */
  ghost predicate ExpandedAreClosed<N>(ne: N -> seq<N>, openSet: set<N>, gScore: map<N, nat>)
  {
    forall n, b :: n in gScore && n !in openSet && b in ne(n) ==> b in gScore
  }

  /**
   * The facts that hold while the neighbours of `current` are relaxed:
   * `done` are the neighbours handled so far, `openBefore` and `gBefore`
   * the open set and scores when relaxation began. Scores only go down,
   * and a relaxation that changes nothing leaves the open set as it was.
   */
  ghost predicate RelaxInvariant<N>(start: N, goal: N, h: N -> nat, ne: N -> seq<N>, nodes: set<N>,
                                    current: N, done: seq<N>, openBefore: set<N>, gBefore: map<N, nat>,
                                    openSet: set<N>, cameFrom: map<N, N>,
                                    gScore: map<N, nat>, fScore: map<N, nat>)
  {
    && SearchInvariant(start, goal, h, ne, nodes, openSet, cameFrom, gScore, fScore)
    && current != goal
    && RelaxProgress(ne, nodes, current, done, openBefore, gBefore, openSet, gScore)
  }

  /** The part of the relaxation facts about the open set and the scores only. */
  ghost predicate RelaxProgress<N>(ne: N -> seq<N>, nodes: set<N>, current: N, done: seq<N>,
                                   openBefore: set<N>, gBefore: map<N, nat>, openSet: set<N>, gScore: map<N, nat>)
  {
    && current in gScore && current !in openSet
    && (forall n, b :: n in gScore && n !in openSet && n != current && b in ne(n) ==> b in gScore)
    && (forall b :: b in done ==> b in gScore)
    && gBefore.Keys <= gScore.Keys
    && (forall n :: n in gBefore ==> gScore[n] <= gBefore[n])
    && (gScore.Keys == gBefore.Keys ==> GTotal(gScore, nodes) <= GTotal(gBefore, nodes))
    && (gScore.Keys == gBefore.Keys && GTotal(gScore, nodes) == GTotal(gBefore, nodes) ==> openSet == openBefore)
  }

  /** Recording a better score for a neighbour keeps the relaxation facts. */
  lemma RelaxKeepsInvariant<N>(start: N, goal: N, h: N -> nat, d: (N, N) -> nat, ne: N -> seq<N>, nodes: set<N>,
                               current: N, done: seq<N>, openBefore: set<N>, gBefore: map<N, nat>,
                               openSet: set<N>, cameFrom: map<N, N>, gScore: map<N, nat>, fScore: map<N, nat>,
                               neighbor: N, tentative: nat)
    requires RelaxInvariant(start, goal, h, ne, nodes, current, done, openBefore, gBefore, openSet, cameFrom, gScore, fScore)
    requires ClosedUnder(nodes, ne) && neighbor in ne(current) && d(current, neighbor) > 0
    requires tentative == gScore[current] + d(current, neighbor)
    requires neighbor !in gScore || tentative < gScore[neighbor]
    ensures RelaxInvariant(start, goal, h, ne, nodes, current, done + [neighbor], openBefore, gBefore,
                           openSet + {neighbor}, cameFrom[neighbor := current],
                           gScore[neighbor := tentative], fScore[neighbor := tentative + h(neighbor)])
  {
    assert neighbor in nodes;
    assert neighbor != current;
    RelaxKeepsSearch(start, goal, h, ne, nodes, openSet, cameFrom, gScore, fScore, current, neighbor, tentative);
    RelaxKeepsProgress(ne, nodes, current, done, openBefore, gBefore, openSet, gScore, neighbor, tentative);
  }

  /** A better score for a neighbour lowers the score sum or scores a new node. */
  lemma RelaxKeepsProgress<N>(ne: N -> seq<N>, nodes: set<N>, current: N, done: seq<N>,
                              openBefore: set<N>, gBefore: map<N, nat>, openSet: set<N>, gScore: map<N, nat>,
                              neighbor: N, tentative: nat)
    requires RelaxProgress(ne, nodes, current, done, openBefore, gBefore, openSet, gScore)
    requires neighbor in nodes && neighbor != current
    requires neighbor !in gScore || tentative < gScore[neighbor]
    ensures RelaxProgress(ne, nodes, current, done + [neighbor], openBefore, gBefore,
                          openSet + {neighbor}, gScore[neighbor := tentative])
  {
    if neighbor in gScore {
      GTotalDecreases(gScore, nodes, neighbor, tentative);
    } else {
      assert neighbor in gScore[neighbor := tentative].Keys && neighbor !in gBefore.Keys;
    }
  }

  /** The search facts survive recording `current` as the better predecessor of `neighbor`. */
  lemma RelaxKeepsSearch<N>(start: N, goal: N, h: N -> nat, ne: N -> seq<N>, nodes: set<N>,
                            openSet: set<N>, cameFrom: map<N, N>, gScore: map<N, nat>, fScore: map<N, nat>,
                            current: N, neighbor: N, tentative: nat)
    requires SearchInvariant(start, goal, h, ne, nodes, openSet, cameFrom, gScore, fScore)
    requires current in gScore && neighbor in nodes && neighbor in ne(current)
    requires tentative > gScore[current]
    requires neighbor !in gScore || tentative < gScore[neighbor]
    ensures SearchInvariant(start, goal, h, ne, nodes, openSet + {neighbor}, cameFrom[neighbor := current],
                            gScore[neighbor := tentative], fScore[neighbor := tentative + h(neighbor)])
  {
    assert neighbor != current;
    assert neighbor != start by {
      assert gScore[start] == 0;
    }
  }

  /** Taking `current` out of the open set starts its relaxation. */
  lemma RelaxBegins<N>(start: N, goal: N, h: N -> nat, ne: N -> seq<N>, nodes: set<N>,
                       current: N, openSet: set<N>, cameFrom: map<N, N>, gScore: map<N, nat>, fScore: map<N, nat>)
    requires SearchInvariant(start, goal, h, ne, nodes, openSet, cameFrom, gScore, fScore)
    requires ExpandedAreClosed(ne, openSet, gScore)
    requires current in openSet && current != goal
    ensures RelaxInvariant(start, goal, h, ne, nodes, current, [], openSet - {current}, gScore,
                           openSet - {current}, cameFrom, gScore, fScore)
  {
  }

  /** A neighbour whose score does not improve changes nothing. */
  lemma RelaxSkips<N>(start: N, goal: N, h: N -> nat, ne: N -> seq<N>, nodes: set<N>,
                      current: N, done: seq<N>, openBefore: set<N>, gBefore: map<N, nat>,
                      openSet: set<N>, cameFrom: map<N, N>, gScore: map<N, nat>, fScore: map<N, nat>,
                      neighbor: N)
    requires RelaxInvariant(start, goal, h, ne, nodes, current, done, openBefore, gBefore, openSet, cameFrom, gScore, fScore)
    requires neighbor in gScore
    ensures RelaxInvariant(start, goal, h, ne, nodes, current, done + [neighbor], openBefore, gBefore,
                           openSet, cameFrom, gScore, fScore)
  {
  }

  /** After all neighbours of `current` are relaxed, the search has made progress. */
  lemma ExpansionProgress<N>(start: N, goal: N, h: N -> nat, ne: N -> seq<N>, nodes: set<N>,
                             current: N, openAtStart: set<N>, gBefore: map<N, nat>,
                             openSet: set<N>, cameFrom: map<N, N>, gScore: map<N, nat>, fScore: map<N, nat>)
    requires current in openAtStart
    requires RelaxInvariant(start, goal, h, ne, nodes, current, ne(current), openAtStart - {current}, gBefore,
                            openSet, cameFrom, gScore, fScore)
    ensures ExpandedAreClosed(ne, openSet, gScore)
    ensures || nodes - gScore.Keys < nodes - gBefore.Keys
            || (&& nodes - gScore.Keys == nodes - gBefore.Keys
                && (|| GTotal(gScore, nodes) < GTotal(gBefore, nodes)
                    || (GTotal(gScore, nodes) == GTotal(gBefore, nodes) && |openSet| < |openAtStart|)))
  {
    if gScore.Keys != gBefore.Keys {
      var added :| added in gScore.Keys && added !in gBefore.Keys;
      assert added in nodes - gBefore.Keys && added !in nodes - gScore.Keys;
    } else {
      assert nodes - gScore.Keys == nodes - gBefore.Keys;
    }
  }

  /**
   * The inner loop of `A_star` over `ne(current)`: a neighbour whose
   * tentative score `gScore[current] + d(current, neighbor)` beats its
   * recorded one (or that has none) gets `current` as predecessor, the new
   * g- and f-scores, and a place in the open set.
   */
  method RelaxNeighbors<N>(start: N, goal: N, h: N -> nat, d: (N, N) -> nat, ne: N -> seq<N>, ghost nodes: set<N>,
                           current: N, openSet0: set<N>, cameFrom0: map<N, N>,
                           gScore0: map<N, nat>, fScore0: map<N, nat>)
    returns (openSet: set<N>, cameFrom: map<N, N>, gScore: map<N, nat>, fScore: map<N, nat>)
    requires ClosedUnder(nodes, ne)
    requires PositiveCosts(d, ne, nodes)
    requires RelaxInvariant(start, goal, h, ne, nodes, current, [], openSet0, gScore0,
                            openSet0, cameFrom0, gScore0, fScore0)
    ensures RelaxInvariant(start, goal, h, ne, nodes, current, ne(current), openSet0, gScore0,
                           openSet, cameFrom, gScore, fScore)
    ensures gScore[current] == gScore0[current]
    ensures forall b :: b in ne(current) ==> b in gScore && gScore[b] <= gScore0[current] + d(current, b)
    ensures forall b :: b in gScore0 && b !in ne(current) ==> gScore[b] == gScore0[b]
    ensures forall b :: b in gScore && b !in gScore0 ==> b in ne(current)
  {
    openSet, cameFrom, gScore, fScore := openSet0, cameFrom0, gScore0, fScore0;
    var neighbors := ne(current);
    for i := 0 to |neighbors|
      invariant RelaxInvariant(start, goal, h, ne, nodes, current, neighbors[..i], openSet0, gScore0,
                               openSet, cameFrom, gScore, fScore)
      invariant gScore[current] == gScore0[current]
      invariant forall b :: b in neighbors[..i] ==> b in gScore && gScore[b] <= gScore0[current] + d(current, b)
      invariant forall b :: b in gScore0 && b !in neighbors[..i] ==> gScore[b] == gScore0[b]
      invariant forall b :: b in gScore && b !in gScore0 ==> b in neighbors[..i]
    {
      assert neighbors[..i + 1] == neighbors[..i] + [neighbors[i]];
      openSet, cameFrom, gScore, fScore :=
        RelaxNeighbor(start, goal, h, d, ne, nodes, current, neighbors[..i], openSet0, gScore0,
                      neighbors[i], openSet, cameFrom, gScore, fScore);
    }
    assert neighbors[..|neighbors|] == neighbors;
  }

  /**
   * The effect of relaxing one neighbour: when `gScore0[current] + d(current, neighbor)`
   * beats the neighbour's recorded score, or it has none, `current` becomes
   * its predecessor, it gets the new g- and f-scores and joins the open set;
   * otherwise nothing changes.
   */
  ghost predicate RelaxStep<N>(h: N -> nat, d: (N, N) -> nat, current: N, neighbor: N,
                               openSet0: set<N>, cameFrom0: map<N, N>, gScore0: map<N, nat>, fScore0: map<N, nat>,
                               openSet: set<N>, cameFrom: map<N, N>, gScore: map<N, nat>, fScore: map<N, nat>)
    requires current in gScore0
  {
    var tentative := gScore0[current] + d(current, neighbor);
    if neighbor !in gScore0 || tentative < gScore0[neighbor] then
      && openSet == openSet0 + {neighbor}
      && cameFrom == cameFrom0[neighbor := current]
      && gScore == gScore0[neighbor := tentative]
      && fScore == fScore0[neighbor := tentative + h(neighbor)]
    else
      openSet == openSet0 && cameFrom == cameFrom0 && gScore == gScore0 && fScore == fScore0
  }

  /**
   * One neighbour of `current`: the update RelaxStep describes, which keeps
   * the relaxation facts.
   */
  method RelaxNeighbor<N>(start: N, goal: N, h: N -> nat, d: (N, N) -> nat, ne: N -> seq<N>, ghost nodes: set<N>,
                          current: N, ghost done: seq<N>, ghost openBefore: set<N>, ghost gBefore: map<N, nat>,
                          neighbor: N, openSet0: set<N>, cameFrom0: map<N, N>,
                          gScore0: map<N, nat>, fScore0: map<N, nat>)
    returns (openSet: set<N>, cameFrom: map<N, N>, gScore: map<N, nat>, fScore: map<N, nat>)
    requires ClosedUnder(nodes, ne) && PositiveCosts(d, ne, nodes) && neighbor in ne(current)
    requires RelaxInvariant(start, goal, h, ne, nodes, current, done, openBefore, gBefore,
                            openSet0, cameFrom0, gScore0, fScore0)
    ensures RelaxInvariant(start, goal, h, ne, nodes, current, done + [neighbor], openBefore, gBefore,
                           openSet, cameFrom, gScore, fScore)
    ensures RelaxStep(h, d, current, neighbor, openSet0, cameFrom0, gScore0, fScore0, openSet, cameFrom, gScore, fScore)
  {
    openSet, cameFrom, gScore, fScore := openSet0, cameFrom0, gScore0, fScore0;
    var tentative := gScore[current] + d(current, neighbor);
    if neighbor !in gScore || tentative < gScore[neighbor] {
      RelaxKeepsInvariant(start, goal, h, d, ne, nodes, current, done, openBefore, gBefore,
                          openSet, cameFrom, gScore, fScore, neighbor, tentative);
      cameFrom := cameFrom[neighbor := current];
      gScore := gScore[neighbor := tentative];
      fScore := fScore[neighbor := gScore[neighbor] + h(neighbor)];
      if neighbor !in openSet {
        openSet := openSet + {neighbor};
      } else {
        assert openSet + {neighbor} == openSet;
      }
    } else {
      RelaxSkips(start, goal, h, ne, nodes, current, done, openBefore, gBefore,
                 openSet, cameFrom, gScore, fScore, neighbor);
    }
  }

  /**
   * `A_star(start, goal, h, d, ne)`. The ghost `nodes` is a finite set
   * holding start and closed under `ne`; it bounds the search so that
   * termination can be proved (the board and the optimiser grid are finite).
   * A returned path runs from start to goal along `ne` edges; NotFound is
   * returned exactly when goal cannot be reached from start.
   */
  method Search<N>(start: N, goal: N, h: N -> nat, d: (N, N) -> nat, ne: N -> seq<N>, ghost nodes: set<N>)
    returns (result: SearchResult<N>)
    requires start in nodes && ClosedUnder(nodes, ne)
    requires PositiveCosts(d, ne, nodes)
    ensures result.Found? ==> IsPath(result.path, start, goal, ne)
    ensures result.Found? ==> forall i :: 0 <= i < |result.path| ==> result.path[i] in nodes
    ensures result.NotFound? <==> !Reachable(start, goal, ne, nodes)
  {
    var openSet := {start};
    var cameFrom: map<N, N> := map[];
    var gScore: map<N, nat> := map[start := 0];
    var fScore: map<N, nat> := map[start := h(start)];
    while openSet != {}
      invariant SearchInvariant(start, goal, h, ne, nodes, openSet, cameFrom, gScore, fScore)
      invariant ExpandedAreClosed(ne, openSet, gScore)
      decreases nodes - gScore.Keys, GTotal(gScore, nodes), |openSet|
    {
      var current := SelectMin(openSet, fScore);
      if current == goal {
        var path := ReconstructPath(cameFrom, current, gScore);
        assert IsPathWithin(path, start, goal, ne, nodes);
        return Found(path);
      }
      RelaxBegins(start, goal, h, ne, nodes, current, openSet, cameFrom, gScore, fScore);
      ghost var openAtStart, gBefore := openSet, gScore;
      openSet := openSet - {current};
      openSet, cameFrom, gScore, fScore :=
        RelaxNeighbors(start, goal, h, d, ne, nodes, current, openSet, cameFrom, gScore, fScore);
      ExpansionProgress(start, goal, h, ne, nodes, current, openAtStart, gBefore, openSet, cameFrom, gScore, fScore);
    }
    ClosedSetSeparates(gScore.Keys, start, goal, ne);
    return NotFound;
  }

  // ---------------------------------------------------------------------
  // Chaining segment searches
  // ---------------------------------------------------------------------

  /** The segments one after the other, as `path.extend` builds them. */
  function Concat<T>(segments: seq<seq<T>>): seq<T>
  {
    if segments == [] then [] else Concat(segments[..|segments| - 1]) + segments[|segments| - 1]
  }

  /** The sum of the segments' node counts. */
  function TotalLength<T>(segments: seq<seq<T>>): nat
  {
    if segments == [] then 0 else TotalLength(segments[..|segments| - 1]) + |segments[|segments| - 1]|
  }

  lemma {:induction false} ConcatLength<T>(segments: seq<seq<T>>)
    ensures |Concat(segments)| == TotalLength(segments)
  {
    if segments != [] {
      ConcatLength(segments[..|segments| - 1]);
    }
  }

  /**
   * Segment k starts in the concatenation right after the nodes of the
   * segments before it, so the segments' first nodes appear in order.
   */
  lemma {:induction false} ConcatVisitsInOrder<T>(segments: seq<seq<T>>, k: nat)
    requires k < |segments| && |segments[k]| > 0
    ensures TotalLength(segments[..k]) < |Concat(segments)|
    ensures Concat(segments)[TotalLength(segments[..k])] == segments[k][0]
  {
    var last := |segments| - 1;
    var init := segments[..last];
    ConcatLength(segments);
    ConcatLength(init);
    if k == last {
      assert segments[..k] == init;
    } else {
      assert init[..k] == segments[..k];
      assert init[k] == segments[k];
      ConcatVisitsInOrder(init, k);
    }
  }
}
