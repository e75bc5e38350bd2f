/** Shortest-path routing from one source: Dijkstra's algorithm and the forwarding entries read off it. */
module Dijkstra {
  import opened Walks

  const INF := 999999

  ghost predicate Sized(n: nat, dist: seq<int>, visited: seq<bool>, parent: seq<int>, rank: seq<nat>) {
    |dist| == n && |visited| == n && |parent| == n && |rank| == n
  }

  ghost predicate Capped(dist: seq<int>) {
    forall v :: 0 <= v < |dist| ==> 0 <= dist[v] <= INF
  }

  /** Visited nodes are no farther than the others, and all their links have been used. */
  ghost predicate Frontier(c: Matrix, n: nat, dist: seq<int>, visited: seq<bool>)
    requires IsMatrix(c, n) && |dist| == |visited| == n
  {
    && (forall u, v :: 0 <= u < n && 0 <= v < n && visited[u] && !visited[v] ==> dist[u] <= dist[v])
    && (forall u, v :: 0 <= u < n && 0 <= v < n && visited[u] && c[u][v] != INF ==> dist[v] <= dist[u] + c[u][v])
  }

  /** Every node with a finite distance hangs below a parent that accounts for it; ranks grow downward. */
  ghost predicate IsTree(c: Matrix, n: nat, src: nat, dist: seq<int>, parent: seq<int>, rank: seq<nat>)
    requires IsMatrix(c, n) && |dist| == |parent| == |rank| == n
  {
    && src < n && dist[src] == 0 && parent[src] == -1
    && forall v :: 0 <= v < n && v != src ==>
      if dist[v] < INF then
        && 0 <= parent[v] < n
        && c[parent[v]][v] != INF && dist[v] == dist[parent[v]] + c[parent[v]][v]
        && rank[parent[v]] < rank[v]
      else parent[v] == -1
  }

  /** Ranks record the order of selection; nodes not selected yet come last. */
  ghost predicate Ranked(n: nat, visited: seq<bool>, parent: seq<int>, rank: seq<nat>, count: nat)
    requires |visited| == |parent| == |rank| == n
  {
    forall v :: 0 <= v < n ==>
      && (if visited[v] then rank[v] < count else rank[v] == n)
      && (0 <= parent[v] < n ==> visited[parent[v]])
  }

  /** A node u that was selected before v's parent offers v a longer way. */
  ghost predicate OffersMore(c: Matrix, n: nat, dist: seq<int>, parent: seq<int>, rank: seq<nat>, u: nat, v: nat)
    requires IsMatrix(c, n) && |dist| == |parent| == |rank| == n && u < n && v < n
  {
    0 <= parent[v] < n && rank[u] < rank[parent[v]] && c[u][v] != INF ==> dist[v] < dist[u] + c[u][v]
  }

  /** Parents are the first to offer their distance. */
  ghost predicate FirstParents(c: Matrix, n: nat, dist: seq<int>, parent: seq<int>, rank: seq<nat>)
    requires IsMatrix(c, n) && |dist| == |parent| == |rank| == n
  {
    forall u: nat, v: nat :: u < n && v < n ==> OffersMore(c, n, dist, parent, rank, u, v)
  }

  /** Nodes are selected in the order of their distances. */
  ghost predicate InOrder(n: nat, dist: seq<int>, rank: seq<nat>)
    requires |dist| == |rank| == n
  {
    forall u, v :: 0 <= u < n && 0 <= v < n && rank[u] < rank[v] ==> dist[u] <= dist[v]
  }

  ghost function Selected(visited: seq<bool>): nat {
    if visited == [] then 0 else (if visited[0] then 1 else 0) + Selected(visited[1..])
  }

  lemma {:induction false} SelectedNone(visited: seq<bool>)
    requires forall i :: 0 <= i < |visited| ==> !visited[i]
    ensures Selected(visited) == 0
  {
    if visited != [] {
      SelectedNone(visited[1..]);
    }
  }

  lemma {:induction false} SelectedOneMore(visited: seq<bool>, u: nat)
    requires u < |visited| && !visited[u]
    ensures Selected(visited[u := true]) == Selected(visited) + 1
  {
    if u > 0 {
      SelectedOneMore(visited[1..], u - 1);
      assert visited[u := true][1..] == visited[1..][u - 1 := true];
    } else {
      assert visited[0 := true][1..] == visited[1..];
    }
  }

  lemma {:induction false} SelectedMissing(visited: seq<bool>, u: nat)
    requires u < |visited| && !visited[u]
    ensures Selected(visited) < |visited|
  {
    if u > 0 {
      SelectedMissing(visited[1..], u - 1);
      SelectedAtMost(visited[1..]);
    } else {
      SelectedAtMost(visited[1..]);
    }
  }

  lemma {:induction false} SelectedAtMost(visited: seq<bool>)
    ensures Selected(visited) <= |visited|
  {
    if visited != [] {
      SelectedAtMost(visited[1..]);
    }
  }

  /** After n - 1 selections at most one node is left. */
  lemma LastOne(visited: seq<bool>, a: nat, b: nat)
    requires a < |visited| && b < |visited| && !visited[a] && !visited[b]
    requires Selected(visited) >= |visited| - 1
    ensures a == b
  {
    if a != b {
      SelectedOneMore(visited, a);
      SelectedMissing(visited[a := true], b);
    }
  }

  // ----- One round -----

  /** The distances after the links of u have been used. */
  ghost function RelaxedDist(c: Matrix, n: nat, dist: seq<int>, visited: seq<bool>, u: nat): (d: seq<int>)
    requires IsMatrix(c, n) && |dist| == |visited| == n && u < n
    ensures |d| == n
  {
    seq(n, v requires 0 <= v < n =>
      if !visited[v] && c[u][v] != INF && dist[u] + c[u][v] < dist[v] then dist[u] + c[u][v] else dist[v])
  }

  ghost function RelaxedParent(c: Matrix, n: nat, dist: seq<int>, visited: seq<bool>, parent: seq<int>, u: nat)
    : (p: seq<int>)
    requires IsMatrix(c, n) && |dist| == |visited| == |parent| == n && u < n
    ensures |p| == n
  {
    seq(n, v requires 0 <= v < n =>
      if !visited[v] && c[u][v] != INF && dist[u] + c[u][v] < dist[v] then u else parent[v])
  }

  /** No unvisited node is below INF. */
  ghost predicate NoneLeft(dist: seq<int>, visited: seq<bool>) {
    |dist| == |visited| && forall v :: 0 <= v < |dist| && !visited[v] ==> dist[v] >= INF
  }

  /** u is an unvisited node of least distance below INF. */
  ghost predicate IsNearest(n: nat, dist: seq<int>, visited: seq<bool>, u: nat)
    requires |dist| == |visited| == n
  {
    u < n && !visited[u] && dist[u] < INF && forall v :: 0 <= v < n && !visited[v] ==> dist[u] <= dist[v]
  }

  lemma RoundKeepsFrontier(c: Matrix, n: nat, dist: seq<int>, visited: seq<bool>, u: nat)
    requires IsMatrix(c, n) && |dist| == |visited| == n
    requires Capped(dist) && Frontier(c, n, dist, visited) && IsNearest(n, dist, visited, u)
    ensures var visited' := visited[u := true]; var dist' := RelaxedDist(c, n, dist, visited', u);
      Capped(dist') && Frontier(c, n, dist', visited')
  {}

  lemma RoundKeepsTree(c: Matrix, n: nat, src: nat, dist: seq<int>, visited: seq<bool>, parent: seq<int>,
                       rank: seq<nat>, u: nat, count: nat)
    requires IsMatrix(c, n) && Sized(n, dist, visited, parent, rank) && count < n
    requires Capped(dist) && IsTree(c, n, src, dist, parent, rank) && Ranked(n, visited, parent, rank, count)
    requires IsNearest(n, dist, visited, u)
    ensures var visited' := visited[u := true]; var rank' := rank[u := count];
      var dist' := RelaxedDist(c, n, dist, visited', u);
      var parent' := RelaxedParent(c, n, dist, visited', parent, u);
      IsTree(c, n, src, dist', parent', rank') && Ranked(n, visited', parent', rank', count + 1)
  {
    var visited' := visited[u := true];
    var dist' := RelaxedDist(c, n, dist, visited', u);
    var parent' := RelaxedParent(c, n, dist, visited', parent, u);
    forall v | 0 <= v < n && 0 <= parent[v] < n
      ensures dist'[parent[v]] == dist[parent[v]] && dist'[u] == dist[u]
    {}
  }

  lemma RoundKeepsOrder(c: Matrix, n: nat, dist: seq<int>, visited: seq<bool>, parent: seq<int>, rank: seq<nat>, u: nat,
                        count: nat)
    requires IsMatrix(c, n) && Sized(n, dist, visited, parent, rank) && count < n
    requires Frontier(c, n, dist, visited) && Ranked(n, visited, parent, rank, count) && IsNearest(n, dist, visited, u)
    requires FirstParents(c, n, dist, parent, rank) && InOrder(n, dist, rank)
    ensures var visited' := visited[u := true]; var rank' := rank[u := count];
      var dist' := RelaxedDist(c, n, dist, visited', u);
      var parent' := RelaxedParent(c, n, dist, visited', parent, u);
      FirstParents(c, n, dist', parent', rank') && InOrder(n, dist', rank')
  {
    var visited', rank' := visited[u := true], rank[u := count];
    var dist' := RelaxedDist(c, n, dist, visited', u);
    var parent' := RelaxedParent(c, n, dist, visited', parent, u);
    forall w: nat, v: nat | w < n && v < n
      ensures OffersMore(c, n, dist', parent', rank', w, v)
    {
      assert OffersMore(c, n, dist, parent, rank, w, v);
    }
  }

  // ----- Optimality -----

  /** No link from a node with a finite distance offers an improvement. */
  ghost predicate AllRelaxed(c: Matrix, n: nat, dist: seq<int>)
    requires IsMatrix(c, n) && |dist| == n
  {
    forall u, v :: 0 <= u < n && 0 <= v < n && dist[u] < INF && c[u][v] != INF ==> dist[v] <= dist[u] + c[u][v]
  }

  lemma FrontierDone(c: Matrix, n: nat, dist: seq<int>, visited: seq<bool>)
    requires IsMatrix(c, n) && |dist| == |visited| == n && Capped(dist) && Frontier(c, n, dist, visited)
    requires Selected(visited) >= n - 1 || NoneLeft(dist, visited)
    ensures AllRelaxed(c, n, dist)
  {
    forall u, v | 0 <= u < n && 0 <= v < n && dist[u] < INF && c[u][v] != INF
      ensures dist[v] <= dist[u] + c[u][v]
    {
      if !visited[u] && !visited[v] && Selected(visited) >= n - 1 {
        LastOne(visited, u, v);
      }
    }
  }

  lemma {:induction false} NoShorterWalk(c: Matrix, n: nat, src: nat, dist: seq<int>, w: seq<nat>)
    requires IsMatrix(c, n) && |dist| == n && Capped(dist) && AllRelaxed(c, n, dist)
    requires IsWalk(c, n, INF, w) && w[0] == src && dist[src] == 0
    ensures dist[w[|w| - 1]] <= Length(c, n, w)
    decreases |w|
  {
    if |w| > 1 {
      var front := w[..|w| - 1];
      assert w == front + [w[|w| - 1]];
      NoShorterWalk(c, n, src, dist, front);
      LengthSnoc(c, n, front, w[|w| - 1]);
    }
  }

  // ----- Paths -----

  /** The parent chain of a reached node, from the source on. */
  function PathTo(parent: seq<int>, ghost rank: seq<nat>, v: nat): (w: seq<nat>)
    requires |rank| == |parent| && v < |parent|
    requires forall u :: 0 <= u < |parent| && 0 <= parent[u] < |parent| ==> rank[parent[u]] < rank[u]
    ensures w != []
    decreases rank[v]
  {
    if 0 <= parent[v] < |parent| then PathTo(parent, rank, parent[v]) + [v] else [v]
  }

  /** The parent chain is a walk from the source as long as the distance says. */
  lemma {:induction false} PathIsWalk(c: Matrix, n: nat, src: nat, dist: seq<int>, parent: seq<int>, rank: seq<nat>,
                                      v: nat)
    requires IsMatrix(c, n) && |dist| == |parent| == |rank| == n
    requires IsTree(c, n, src, dist, parent, rank) && Capped(dist)
    requires v < n && dist[v] < INF
    ensures Connects(c, n, INF, PathTo(parent, rank, v), src, v)
    ensures Length(c, n, PathTo(parent, rank, v)) == dist[v]
    decreases rank[v]
  {
    if v != src {
      PathIsWalk(c, n, src, dist, parent, rank, parent[v]);
      LengthSnoc(c, n, PathTo(parent, rank, parent[v]), v);
    }
  }

  /** What the algorithm hands on: distances that are right and a tree of shortest walks. */
  ghost predicate IsSolution(c: Matrix, n: nat, src: nat, dist: seq<int>, parent: seq<int>, rank: seq<nat>)
    requires IsMatrix(c, n)
  {
    && |dist| == |parent| == |rank| == n
    && Capped(dist)
    && IsTree(c, n, src, dist, parent, rank)
    && forall v: nat :: v < n ==> IsDistance(c, n, INF, src, v, dist[v])
  }

  lemma SolutionFound(c: Matrix, n: nat, src: nat, dist: seq<int>, parent: seq<int>, rank: seq<nat>)
    requires IsMatrix(c, n) && |dist| == |parent| == |rank| == n && Capped(dist)
    requires IsTree(c, n, src, dist, parent, rank) && AllRelaxed(c, n, dist)
    ensures IsSolution(c, n, src, dist, parent, rank)
  {
    forall v: nat | v < n
      ensures IsDistance(c, n, INF, src, v, dist[v])
    {
      forall w | Connects(c, n, INF, w, src, v)
        ensures dist[v] <= Length(c, n, w)
      {
        NoShorterWalk(c, n, src, dist, w);
      }
      if dist[v] < INF {
        PathIsWalk(c, n, src, dist, parent, rank, v);
      }
    }
  }

  // ----- The algorithm -----

  /** The selection scan: -1 if no unvisited node is below INF. */
  method SelectNearest(n: nat, dist: array<int>, visited: array<bool>) returns (u: int)
    requires dist.Length == visited.Length == n
    ensures u >= -1
    ensures u == -1 ==> NoneLeft(dist[..], visited[..])
    ensures u >= 0 ==> IsNearest(n, dist[..], visited[..], u)
  {
    var minDist := INF;
    u := -1;
    for v := 0 to n
      invariant if u == -1 then minDist == INF
                else 0 <= u < n && !visited[u] && minDist == dist[u] < INF
      invariant forall x :: 0 <= x < v && !visited[x] ==> minDist <= dist[x]
    {
      if !visited[v] && dist[v] < minDist {
        minDist := dist[v];
        u := v;
      }
    }
  }

  /** Uses every link of u, in place. */
  method Relax(c: Matrix, n: nat, u: nat, dist: array<int>, visited: array<bool>, parent: array<int>)
    requires IsMatrix(c, n) && dist.Length == visited.Length == parent.Length == n && u < n
    requires dist != parent && visited[u]
    modifies dist, parent
    ensures dist[..] == RelaxedDist(c, n, old(dist[..]), visited[..], u)
    ensures parent[..] == RelaxedParent(c, n, old(dist[..]), visited[..], old(parent[..]), u)
  {
    ghost var dist0, parent0 := dist[..], parent[..];
    for v := 0 to n
      invariant forall x :: 0 <= x < v ==> dist[x] == RelaxedDist(c, n, dist0, visited[..], u)[x]
      invariant forall x :: 0 <= x < v ==> parent[x] == RelaxedParent(c, n, dist0, visited[..], parent0, u)[x]
      invariant forall x :: v <= x < n ==> dist[x] == dist0[x] && parent[x] == parent0[x]
      invariant dist[u] == dist0[u]
    {
      if !visited[v] && c[u][v] != INF && dist[u] + c[u][v] < dist[v] {
        dist[v] := dist[u] + c[u][v];
        parent[v] := u;
      }
    }
  }

  /** The state between two rounds. */
  ghost predicate Between(c: Matrix, n: nat, src: nat, dist: seq<int>, visited: seq<bool>, parent: seq<int>,
                          rank: seq<nat>, count: nat)
    requires IsMatrix(c, n)
  {
    && Sized(n, dist, visited, parent, rank) && Capped(dist) && Frontier(c, n, dist, visited)
    && IsTree(c, n, src, dist, parent, rank) && Ranked(n, visited, parent, rank, count)
    && FirstParents(c, n, dist, parent, rank) && InOrder(n, dist, rank)
    && Selected(visited) == count
  }

  lemma RoundKeepsState(c: Matrix, n: nat, src: nat, dist: seq<int>, visited: seq<bool>, parent: seq<int>,
                        rank: seq<nat>, u: nat, count: nat)
    requires IsMatrix(c, n) && Between(c, n, src, dist, visited, parent, rank, count) && count < n
    requires IsNearest(n, dist, visited, u)
    ensures var visited' := visited[u := true];
      Between(c, n, src, RelaxedDist(c, n, dist, visited', u), visited',
              RelaxedParent(c, n, dist, visited', parent, u), rank[u := count], count + 1)
  {
    RoundKeepsFrontier(c, n, dist, visited, u);
    RoundKeepsTree(c, n, src, dist, visited, parent, rank, u, count);
    RoundKeepsOrder(c, n, dist, visited, parent, rank, u, count);
    SelectedOneMore(visited, u);
  }

  lemma InitialState(c: Matrix, n: nat, src: nat)
    requires IsMatrix(c, n) && src < n
    ensures Between(c, n, src, seq(n, i => if i == src then 0 else INF), seq(n, _ => false), seq(n, _ => -1),
                    seq(n, _ => n), 0)
  {
    SelectedNone(seq(n, _ => false));
  }

  method Initialise(c: Matrix, n: nat, src: nat)
    returns (dist: array<int>, visited: array<bool>, parent: array<int>, ghost rank: seq<nat>)
    requires IsMatrix(c, n) && src < n
    ensures fresh(dist) && fresh(visited) && fresh(parent) && dist != parent
    ensures dist.Length == visited.Length == parent.Length == n
    ensures Between(c, n, src, dist[..], visited[..], parent[..], rank, 0)
  {
    dist := new int[n](_ => INF);
    visited := new bool[n](_ => false);
    parent := new int[n](_ => -1);
    rank := seq(n, _ => n);
    dist[src] := 0;
    InitialState(c, n, src);
    assert dist[..] == seq(n, i => if i == src then 0 else INF);
    assert visited[..] == seq(n, _ => false) && parent[..] == seq(n, _ => -1);
  }

  /** Marks u as visited and uses its links. */
  method VisitNode(c: Matrix, n: nat, ghost src: nat, u: nat, dist: array<int>, visited: array<bool>,
                   parent: array<int>, ghost rank: seq<nat>, ghost count: nat)
    requires IsMatrix(c, n) && dist.Length == visited.Length == parent.Length == n && dist != parent
    requires Between(c, n, src, dist[..], visited[..], parent[..], rank, count) && count < n
    requires IsNearest(n, dist[..], visited[..], u)
    modifies dist, visited, parent
    ensures Between(c, n, src, dist[..], visited[..], parent[..], rank[u := count], count + 1)
  {
    RoundKeepsState(c, n, src, dist[..], visited[..], parent[..], rank, u, count);
    ghost var visited0 := visited[..];
    visited[u] := true;
    assert visited[..] == visited0[u := true];
    Relax(c, n, u, dist, visited, parent);
  }

  /** Once no node is left to select, the state is a solution. */
  lemma AllSelected(c: Matrix, n: nat, src: nat, dist: seq<int>, visited: seq<bool>, parent: seq<int>, rank: seq<nat>,
                    count: nat)
    requires IsMatrix(c, n)
    ensures count + 1 >= n || NoneLeft(dist, visited) ==> Between(c, n, src, dist, visited, parent, rank, count) ==>
      IsSolution(c, n, src, dist, parent, rank) && FirstParents(c, n, dist, parent, rank) && InOrder(n, dist, rank)
  {
    if (count + 1 >= n || NoneLeft(dist, visited)) && Between(c, n, src, dist, visited, parent, rank, count) {
      FrontierDone(c, n, dist, visited);
      SolutionFound(c, n, src, dist, parent, rank);
    }
  }

  /** At most n - 1 selections. */
  method SelectAll(n: nat, c: Matrix, ghost src: nat, dist: array<int>, visited: array<bool>, parent: array<int>,
                   ghost rank0: seq<nat>)
    returns (ghost rank: seq<nat>, count: nat)
    requires IsMatrix(c, n) && dist.Length == visited.Length == parent.Length == n && dist != parent
    requires Between(c, n, src, dist[..], visited[..], parent[..], rank0, 0)
    modifies dist, visited, parent
    ensures Between(c, n, src, dist[..], visited[..], parent[..], rank, count)
    ensures count + 1 >= n || NoneLeft(dist[..], visited[..])
  {
    rank := rank0;
    count := 0;
    while count < n - 1
      invariant dist.Length == visited.Length == parent.Length == n
      invariant Between(c, n, src, dist[..], visited[..], parent[..], rank, count)
    {
      var u := SelectNearest(n, dist, visited);
      if u == -1 {
        break;
      }
      VisitNode(c, n, src, u, dist, visited, parent, rank, count);
      rank := rank[u := count];
      count := count + 1;
    }
  }

  /** The computation for one source. */
  method ShortestPaths(n: nat, c: Matrix, src: nat) returns (dist: array<int>, parent: array<int>, ghost rank: seq<nat>)
    requires IsMatrix(c, n) && src < n
    ensures fresh(dist) && fresh(parent)
    ensures IsSolution(c, n, src, dist[..], parent[..], rank)
    ensures FirstParents(c, n, dist[..], parent[..], rank) && InOrder(n, dist[..], rank)
  {
    var visited, count;
    dist, visited, parent, rank := Initialise(c, n, src);
    rank, count := SelectAll(n, c, src, dist, visited, parent, rank);
    AllSelected(c, n, src, dist[..], visited[..], parent[..], rank, count);
  }

  // ----- Forwarding -----

  /** The recursive path printer: the nodes in the order they are printed. */
  method PrintPath(parent: array<int>, ghost rank: seq<nat>, j: nat) returns (out: seq<nat>)
    requires |rank| == parent.Length && j < parent.Length
    requires forall u :: 0 <= u < parent.Length ==> -1 <= parent[u] < parent.Length
    requires forall u :: 0 <= u < parent.Length && 0 <= parent[u] < parent.Length ==> rank[parent[u]] < rank[u]
    ensures out == PathTo(parent[..], rank, j)
    decreases rank[j]
  {
    if parent[j] == -1 {
      return [j];
    }
    out := PrintPath(parent, rank, parent[j]);
    out := out + [j];
  }

  /** Walking up from the destination until the parent is the source. */
  method GetNextHop(c: Matrix, ghost n: nat, parent: array<int>, dest: nat, source: nat, ghost dist: seq<int>,
                    ghost rank: seq<nat>)
    returns (hop: nat)
    requires IsMatrix(c, n) && IsSolution(c, n, source, dist, parent[..], rank) && dest < n
    ensures dest == source ==> hop == source
    ensures dest != source && dist[dest] < INF ==>
      |PathTo(parent[..], rank, dest)| > 1 && PathTo(parent[..], rank, dest)[1] == hop
    ensures dest != source && dist[dest] == INF ==> hop == dest
  {
    if dest == source {
      return source;
    }
    hop := dest;
    ghost var path := PathTo(parent[..], rank, dest);
    while parent[hop] != -1 && parent[hop] != source
      invariant hop < n && hop != source && (dist[hop] < INF <==> dist[dest] < INF)
      invariant dist[dest] == INF ==> hop == dest
      invariant PathTo(parent[..], rank, hop) <= path
      decreases rank[hop]
    {
      assert PathTo(parent[..], rank, hop) == PathTo(parent[..], rank, parent[hop]) + [hop];
      hop := parent[hop];
    }
    if dist[dest] < INF {
      assert PathTo(parent[..], rank, source) == [source];
      assert PathTo(parent[..], rank, hop) == [source] + [hop];
    }
  }

  /** w is a shortest walk from src to dest, and hop is its first stop. */
  ghost predicate IsShortestBy(c: Matrix, n: nat, src: nat, dest: nat, w: seq<nat>, hop: nat)
    requires IsMatrix(c, n)
  {
    && Connects(c, n, INF, w, src, dest) && |w| > 1 && w[1] == hop
    && (forall w' :: Connects(c, n, INF, w', src, dest) ==> Length(c, n, w) <= Length(c, n, w'))
  }

  /** The forwarding entry of a reachable destination is the first hop of a shortest walk. */
  lemma NextHopIsShortest(c: Matrix, n: nat, src: nat, dist: seq<int>, parent: seq<int>, rank: seq<nat>, dest: nat,
                          hop: nat)
    requires IsMatrix(c, n) && IsSolution(c, n, src, dist, parent, rank) && dest < n && dest != src && dist[dest] < INF
    requires |PathTo(parent, rank, dest)| > 1 && PathTo(parent, rank, dest)[1] == hop
    ensures exists w :: IsShortestBy(c, n, src, dest, w, hop)
  {
    var w := PathTo(parent, rank, dest);
    PathIsWalk(c, n, src, dist, parent, rank, dest);
    assert IsShortestBy(c, n, src, dest, w, hop);
  }
}
