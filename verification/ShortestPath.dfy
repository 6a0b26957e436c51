/** Dijkstra's algorithm as the router runs it: once per interface over the graph of subnets, all edges of weight one,
    and the results merged by minimum. */
module ShortestPath {

  const INT_MAX: int := 0x7FFF_FFFF

  type Edges = set<(int, int)>

  /** A walk from `s` to `v`, as the sequence of its vertices; it has one edge fewer than vertices. */
  ghost predicate Walk(e: Edges, s: int, v: int, p: seq<int>) {
    && p != []
    && p[0] == s
    && p[|p| - 1] == v
    && forall i | 0 < i < |p| :: (p[i - 1], p[i]) in e
  }

  /** Some walk to `v` has `d` edges. */
  ghost predicate Attained(e: Edges, s: int, v: int, d: int) {
    exists p :: Walk(e, s, v, p) && |p| == d + 1
  }

  /** No walk to `v` has fewer than `d` edges; if there is any walk, `d` is finite. */
  ghost predicate Least(e: Edges, s: int, v: int, d: int) {
    forall p | Walk(e, s, v, p) :: d < |p| && d < INT_MAX
  }

  /** `d` is the distance from `s` to `v`, with INT_MAX for "unreachable". */
  ghost predicate IsDist(e: Edges, s: int, v: int, d: int) {
    && 0 <= d <= INT_MAX
    && (d < INT_MAX ==> Attained(e, s, v, d))
    && Least(e, s, v, d)
  }

  predicate Within(e: Edges, n: nat) {
    forall x | x in e :: 0 <= x.0 < n && 0 <= x.1 < n
  }

  lemma DistUnique(e: Edges, s: int, v: int, d: int, d': int)
    requires IsDist(e, s, v, d) && IsDist(e, s, v, d')
    ensures d == d'
  {
  }

  lemma WalkExtends(e: Edges, s: int, u: int, v: int, d: int)
    requires Attained(e, s, u, d) && (u, v) in e
    ensures Attained(e, s, v, d + 1)
  {
    var p :| Walk(e, s, u, p) && |p| == d + 1;
    assert Walk(e, s, v, p + [v]);
  }

  lemma WalkShrinks(e: Edges, s: int, v: int, p: seq<int>)
    requires Walk(e, s, v, p) && |p| > 1
    ensures var u := p[|p| - 2]; (u, v) in e && Walk(e, s, u, p[..|p| - 1])
  {
    assert (p[|p| - 1 - 1], p[|p| - 1]) in e;
  }

  // ---- One source -----------------------------------------------------------

  /** What holds after `rounds` rounds of the main loop. */
  ghost predicate Inv(e: Edges, s: int, dist: seq<int>, visited: seq<bool>, rounds: nat) {
    && |dist| == |visited|
    && 0 <= s < |dist| && dist[s] == 0
    && Within(e, |dist|)
    && (forall v | 0 <= v < |dist| :: 0 <= dist[v] <= INT_MAX)
    && (forall v | 0 <= v < |dist| && dist[v] < INT_MAX :: dist[v] <= rounds && Attained(e, s, v, dist[v]))
    && (forall v | 0 <= v < |dist| && visited[v] :: Least(e, s, v, dist[v]))
    && (forall u, v | 0 <= u < |dist| && visited[u] && (u, v) in e && dist[u] < INT_MAX :: dist[v] <= dist[u] + 1)
  }

  /** `u` is an unvisited vertex of least tentative distance. */
  predicate Nearest(dist: seq<int>, visited: seq<bool>, u: int)
    requires |dist| == |visited|
  {
    0 <= u < |dist| && !visited[u] && forall v | 0 <= v < |dist| && !visited[v] :: dist[u] <= dist[v]
  }

  /** No walk to an unvisited vertex is shorter than the nearest tentative distance. */
  lemma {:induction false} FrontierBound(e: Edges, s: int, dist: seq<int>, visited: seq<bool>, rounds: nat, u: int, w: int, p: seq<int>)
    requires Inv(e, s, dist, visited, rounds) && rounds + 1 < INT_MAX
    requires Nearest(dist, visited, u) && 0 <= w < |dist| && !visited[w] && Walk(e, s, w, p)
    ensures dist[u] < |p| && dist[u] < INT_MAX
    decreases |p|
  {
    if |p| > 1 {
      var y := p[|p| - 2];
      WalkShrinks(e, s, w, p);
      if visited[y] {
        assert Least(e, s, y, dist[y]);
      } else {
        FrontierBound(e, s, dist, visited, rounds, u, y, p[..|p| - 1]);
      }
    }
  }

  /** One relaxation of every edge out of `u`. */
  function Relax(e: Edges, dist: seq<int>, visited: seq<bool>, u: int): (r: seq<int>)
    requires |dist| == |visited| && 0 <= u < |dist|
    ensures |r| == |dist|
  {
    seq(|dist|, v requires 0 <= v < |dist| =>
      if !visited[v] && (u, v) in e && dist[u] != INT_MAX && dist[u] + 1 < dist[v] then dist[u] + 1 else dist[v])
  }

  /** A round of the main loop keeps the invariant. */
  lemma RoundKeeps(e: Edges, s: int, dist: seq<int>, visited: seq<bool>, rounds: nat, u: int)
    requires Inv(e, s, dist, visited, rounds) && rounds + 1 < INT_MAX
    requires Nearest(dist, visited, u)
    ensures Inv(e, s, Relax(e, dist, visited[u := true], u), visited[u := true], rounds + 1)
  {
    var visited' := visited[u := true];
    var dist' := Relax(e, dist, visited', u);
    forall p | Walk(e, s, u, p)
      ensures dist[u] < |p| && dist[u] < INT_MAX
    {
      FrontierBound(e, s, dist, visited, rounds, u, u, p);
    }
    assert Least(e, s, u, dist[u]);
    RoundAttains(e, s, dist, visited', rounds, u);
    RoundRelaxes(e, s, dist, visited, rounds, u);
  }

  lemma RoundAttains(e: Edges, s: int, dist: seq<int>, visited': seq<bool>, rounds: nat, u: int)
    requires |visited'| == |dist| && 0 <= u < |dist|
    requires forall v | 0 <= v < |dist| && dist[v] < INT_MAX :: dist[v] <= rounds && Attained(e, s, v, dist[v])
    ensures forall v | 0 <= v < |dist| && Relax(e, dist, visited', u)[v] < INT_MAX ::
              Relax(e, dist, visited', u)[v] <= rounds + 1 && Attained(e, s, v, Relax(e, dist, visited', u)[v])
  {
    forall v | 0 <= v < |dist| && (u, v) in e && dist[u] < INT_MAX
      ensures Attained(e, s, v, dist[u] + 1)
    {
      WalkExtends(e, s, u, v, dist[u]);
    }
  }

  lemma RoundRelaxes(e: Edges, s: int, dist: seq<int>, visited: seq<bool>, rounds: nat, u: int)
    requires Inv(e, s, dist, visited, rounds) && Nearest(dist, visited, u)
    ensures var visited' := visited[u := true];
            var dist' := Relax(e, dist, visited', u);
            forall x, v | 0 <= x < |dist| && visited'[x] && (x, v) in e && dist'[x] < INT_MAX :: dist'[v] <= dist'[x] + 1
  {
    var visited' := visited[u := true];
    var dist' := Relax(e, dist, visited', u);
    forall x, v | 0 <= x < |dist| && visited'[x] && (x, v) in e && dist'[x] < INT_MAX
      ensures dist'[v] <= dist'[x] + 1
    {
      if x == u && visited[v] {
        WalkExtends(e, s, u, v, dist[u]);
        assert Least(e, s, v, dist[v]);
      }
    }
  }

  /** minDistance: the last of the unvisited vertices at the least tentative distance. */
  method MinDistance(dist: array<int>, visited: array<bool>) returns (u: int)
    requires dist.Length == visited.Length
    requires forall v | 0 <= v < dist.Length :: dist[v] <= INT_MAX
    requires exists v :: 0 <= v < visited.Length && !visited[v]
    ensures Nearest(dist[..], visited[..], u)
    ensures forall v | u < v < dist.Length && !visited[v] :: dist[u] < dist[v]
  {
    var min := INT_MAX;
    u := -1;
    for v := 0 to dist.Length
      invariant u == -1 ==> min == INT_MAX && forall x | 0 <= x < v :: visited[x]
      invariant u != -1 ==> 0 <= u < v && !visited[u] && min == dist[u]
      invariant u != -1 ==> forall x | 0 <= x < v && !visited[x] :: dist[u] <= dist[x]
      invariant u != -1 ==> forall x | u < x < v && !visited[x] :: dist[u] < dist[x]
    {
      if !visited[v] && dist[v] <= min {
        min, u := dist[v], v;
      }
    }
  }

  /** The edges that a matrix of link weights stands for. */
  ghost function EdgesOf(graph: array2<int>): Edges
    reads graph
  {
    set u, v | 0 <= u < graph.Length0 && 0 <= v < graph.Length1 && graph[u, v] != 0 :: (u, v)
  }

  ghost predicate IsGraph(graph: array2<int>)
    reads graph
  {
    && graph.Length0 == graph.Length1 < INT_MAX
    && forall u, v | 0 <= u < graph.Length0 && 0 <= v < graph.Length1 :: graph[u, v] == 0 || graph[u, v] == 1
  }

  /** The inner loop: relax every edge out of `u`. */
  method RelaxFrom(graph: array2<int>, dist: array<int>, visited: array<bool>, u: int)
    requires IsGraph(graph) && dist.Length == visited.Length == graph.Length0 && 0 <= u < dist.Length && visited[u]
    requires forall v | 0 <= v < dist.Length :: dist[v] <= INT_MAX
    modifies dist
    ensures dist[..] == Relax(EdgesOf(graph), old(dist[..]), visited[..], u)
  {
    ghost var r := Relax(EdgesOf(graph), dist[..], visited[..], u);
    for v := 0 to dist.Length
      invariant dist[u] == old(dist[u])
      invariant forall x | 0 <= x < v :: dist[x] == r[x]
      invariant forall x | v <= x < dist.Length :: dist[x] == old(dist[x])
    {
      if !visited[v] && graph[u, v] != 0 && dist[u] != INT_MAX && dist[u] + graph[u, v] < dist[v] {
        dist[v] := dist[u] + graph[u, v];
      }
    }
  }

  ghost function Range(n: nat): (r: set<int>)
    ensures forall x :: x in r <==> 0 <= x < n
    ensures |r| == n
  {
    if n == 0 then {} else Range(n - 1) + {n - 1}
  }

  /** A set of vertices misses one of the first `n` exactly when it has fewer than `n` elements. */
  lemma Missing(n: nat, s: set<int>)
    requires s <= Range(n)
    ensures |s| <= n
    ensures |s| < n <==> exists v :: 0 <= v < n && v !in s
  {
    hide Range;
    var rest := Range(n) - s;
    assert Range(n) * s == s;
    assert |rest| == n - |s|;
    if |s| < n {
      var v :| v in rest;
    }
    forall v | 0 <= v < n && v !in s
      ensures |s| < n
    {
      assert v in rest;
    }
  }

  /** The set-up of a source: everything unvisited and unreachable but the source itself. */
  method Reset(src: int, dist: array<int>, visited: array<bool>)
    requires dist.Length == visited.Length && 0 <= src < dist.Length
    modifies dist, visited
    ensures forall x | 0 <= x < dist.Length :: dist[x] == (if x == src then 0 else INT_MAX) && !visited[x]
  {
    for j := 0 to dist.Length
      invariant forall x | 0 <= x < j :: dist[x] == INT_MAX && !visited[x]
    {
      dist[j], visited[j] := INT_MAX, false;
    }
    dist[src] := 0;
  }

  lemma InitialInv(e: Edges, s: int, dist: seq<int>, visited: seq<bool>)
    requires |dist| == |visited| && 0 <= s < |dist| && Within(e, |dist|)
    requires forall x | 0 <= x < |dist| :: dist[x] == (if x == s then 0 else INT_MAX) && !visited[x]
    ensures Inv(e, s, dist, visited, 0)
  {
    assert Walk(e, s, s, [s]);
  }

  /** One round: visit the nearest unvisited vertex and relax its edges. */
  method Round(graph: array2<int>, dist: array<int>, visited: array<bool>, ghost src: int, ghost w: nat) returns (u: int)
    requires IsGraph(graph) && dist.Length == visited.Length == graph.Length0 && w < dist.Length
    requires Inv(EdgesOf(graph), src, dist[..], visited[..], w)
    requires exists v :: 0 <= v < visited.Length && !visited[v]
    modifies dist, visited
    ensures 0 <= u < dist.Length && !old(visited[u]) && visited[..] == old(visited[..])[u := true]
    ensures Inv(EdgesOf(graph), src, dist[..], visited[..], w + 1)
  {
    hide Inv, Relax;
    InvBounds(EdgesOf(graph), src, dist[..], visited[..], w);
    u := MinDistance(dist, visited);
    RoundKeeps(EdgesOf(graph), src, dist[..], visited[..], w, u);
    visited[u] := true;
    assert visited[..] == old(visited[..])[u := true];
    RelaxFrom(graph, dist, visited, u);
  }

  /** The main loop for one source: every entry becomes the distance, INT_MAX exactly for the unreachable. */
  method Distances(graph: array2<int>, src: int, dist: array<int>, visited: array<bool>)
    requires IsGraph(graph) && dist.Length == visited.Length == graph.Length0 && 0 <= src < dist.Length
    modifies dist, visited
    ensures forall v | 0 <= v < dist.Length :: IsDist(EdgesOf(graph), src, v, dist[v])
  {
    hide *;
    var n := dist.Length;
    Reset(src, dist, visited);
    WithinEdges(graph);
    InitialInv(EdgesOf(graph), src, dist[..], visited[..]);
    ghost var seen: set<int> := {};
    for w := 0 to n
      invariant Inv(EdgesOf(graph), src, dist[..], visited[..], w)
      invariant |seen| == w && forall x :: x in seen <==> 0 <= x < n && visited[x]
    {
      Missing(n, seen);
      var u := Round(graph, dist, visited, src, w);
      assert forall x | 0 <= x < n :: visited[x] == visited[..][x];
      seen := seen + {u};
    }
    Missing(n, seen);
    FinalDist(EdgesOf(graph), src, dist[..], visited[..], n);
    assert forall v | 0 <= v < n :: dist[..][v] == dist[v];
  }

  lemma WithinEdges(graph: array2<int>)
    requires IsGraph(graph)
    ensures Within(EdgesOf(graph), graph.Length0)
  {
  }

  lemma InvBounds(e: Edges, s: int, dist: seq<int>, visited: seq<bool>, rounds: nat)
    requires Inv(e, s, dist, visited, rounds)
    ensures forall v | 0 <= v < |dist| :: 0 <= dist[v] <= INT_MAX
  {
  }

  lemma FinalDist(e: Edges, s: int, dist: seq<int>, visited: seq<bool>, rounds: nat)
    requires Inv(e, s, dist, visited, rounds)
    requires !exists v :: 0 <= v < |dist| && !visited[v]
    ensures forall v | 0 <= v < |dist| :: IsDist(e, s, v, dist[v])
  {
  }

  // ---- Several sources ---------------------------------------------------------

  /** Every walk to `v` has more than `d` edges. */
  ghost predicate Farther(e: Edges, s: int, v: int, d: int) {
    forall p | Walk(e, s, v, p) :: d + 1 < |p|
  }

  /** `f` is the least distance to `v` from any of the sources and `k` the lowest-numbered source at that distance;
      both are INT_MAX when no source reaches `v`. */
  ghost predicate Best(e: Edges, srcs: seq<int>, v: int, f: int, k: int) {
    && 0 <= f <= INT_MAX
    && (f == INT_MAX ==> k == INT_MAX)
    && (f < INT_MAX ==> 0 <= k < |srcs| && Attained(e, srcs[k], v, f))
    && (forall i | 0 <= i < |srcs| :: Least(e, srcs[i], v, f))
    && (forall i | 0 <= i < |srcs| && i < k :: Farther(e, srcs[i], v, f))
  }

  /** Merging the distances from one more source by strict minimum. */
  lemma MergeStep(e: Edges, srcs: seq<int>, v: int, f: int, k: int, s: int, d: int)
    requires Best(e, srcs, v, f, k) && IsDist(e, s, v, d) && |srcs| < INT_MAX
    ensures if d < f then Best(e, srcs + [s], v, d, |srcs|) else Best(e, srcs + [s], v, f, k)
  {
    var all := srcs + [s];
    assert all[|srcs|] == s && forall i | 0 <= i < |srcs| :: all[i] == srcs[i];
    if d < f {
      forall i | 0 <= i < |srcs|
        ensures Least(e, all[i], v, d) && Farther(e, all[i], v, d)
      {
        assert Least(e, srcs[i], v, f);
      }
    } else {
      assert Least(e, s, v, f);
      if f == INT_MAX {
        forall i | 0 <= i < |all|
          ensures Farther(e, all[i], v, f)
        {
          assert Least(e, all[i], v, f);
        }
      }
    }
  }

  lemma BestUnique(e: Edges, srcs: seq<int>, v: int, f: int, k: int, f': int, k': int)
    requires Best(e, srcs, v, f, k) && Best(e, srcs, v, f', k')
    ensures f == f' && k == k'
  {
    if f < INT_MAX {
      assert Least(e, srcs[k], v, f');
      var p :| Walk(e, srcs[k], v, p) && |p| == f + 1;
    }
    if f' < INT_MAX {
      assert Least(e, srcs[k'], v, f);
      var p :| Walk(e, srcs[k'], v, p) && |p| == f' + 1;
    }
  }

  /** A shortest walk from the chosen source passes through no source after its start. */
  lemma ShortestAvoidsSources(e: Edges, srcs: seq<int>, v: int, f: int, k: int, p: seq<int>, j: int)
    requires Best(e, srcs, v, f, k) && f < INT_MAX
    requires Walk(e, srcs[k], v, p) && |p| == f + 1 && 0 < j < |p|
    ensures p[j] !in srcs
  {
    WalkSuffix(e, srcs[k], v, p, j);
  }

  lemma WalkSuffix(e: Edges, s: int, v: int, p: seq<int>, j: int)
    requires Walk(e, s, v, p) && 0 <= j < |p|
    ensures Walk(e, p[j], v, p[j..])
  {
    var q := p[j..];
    forall x | 0 < x < |q|
      ensures (q[x - 1], q[x]) in e
    {
      var y := j + x;
      assert (p[y - 1], p[y]) in e;
    }
  }
}
