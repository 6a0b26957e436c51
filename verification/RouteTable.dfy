/** Route computation: the link-state announcements become a graph of subnets, distances are computed from every
    interface, and the dynamic part of the routing table is rebuilt. */
module RouteTable {
  import opened MachineWords
  import opened ShortestPath
  import opened Slices

  type Ip = uint32

  datatype Link = Link(subnet: Ip, netmask: Ip)

  datatype Lsa = Lsa(subnet: Ip, netmask: Ip, routerId: Ip)

  /** An announcement together with the neighbour it came from (0 for the router's own). */
  datatype Announcement = Announcement(lsa: Lsa, routerIp: Ip)

  /** A neighbour's `lsas` is empty until its first link-state update arrives. */
  datatype Neighbour = Neighbour(ip: Ip, immediate: bool, lsas: seq<Lsa>)

  datatype Interface = Interface(ip: Ip, mask: Ip, neighbours: seq<Neighbour>)

  datatype Entry = Entry(routerIp: Ip, subnet: Ip, netmask: Ip, iface: int, metric: int, dynamic: bool)

  function LinkOf(a: Announcement): Link {
    Link(a.lsa.subnet, a.lsa.netmask)
  }

  function SubnetOf(f: Interface): Ip {
    And(f.mask, f.ip)
  }

  function OwnLsa(f: Interface, rid: Ip): Announcement {
    Announcement(Lsa(SubnetOf(f), f.mask, rid), 0)
  }

  // ---- Collections without repetition ---------------------------------------

  function AddNew<T(==)>(q: seq<T>, x: T): seq<T> {
    if x in q then q else q + [x]
  }

  /** The first occurrences of the elements of `s`, in order. */
  function Distinct<T(==)>(s: seq<T>): seq<T> {
    if s == [] then [] else AddNew(Distinct(s[..|s| - 1]), s[|s| - 1])
  }

  lemma DistinctStep<T>(s: seq<T>, x: T)
    ensures Distinct(s + [x]) == AddNew(Distinct(s), x)
  {
    assert (s + [x])[..|s|] == s;
  }

  lemma {:induction false} DistinctMeans<T>(s: seq<T>)
    ensures NoRepeats(Distinct(s))
    ensures forall x :: x in Distinct(s) <==> x in s
  {
    if s != [] {
      var t, y := s[..|s| - 1], s[|s| - 1];
      DistinctMeans(t);
      assert s == t + [y];
    }
  }

  /** queue_existsunsafe: the first position of `x`, or -1. */
  method IndexOf<T(==)>(q: seq<T>, x: T) returns (k: int)
    ensures x in q ==> 0 <= k < |q| && q[k] == x && x !in q[..k]
    ensures x !in q ==> k == -1
  {
    for i := 0 to |q|
      invariant x !in q[..i]
    {
      if q[i] == x {
        return i;
      }
    }
    return -1;
  }

  // ---- Gathering the topology -------------------------------------------------

  function FromNeighbour(n: Neighbour): (r: seq<Announcement>)
    ensures |r| == |n.lsas|
  {
    seq(|n.lsas|, i requires 0 <= i < |n.lsas| => Announcement(n.lsas[i], n.ip))
  }

  function FromNeighbours(ns: seq<Neighbour>): seq<Announcement> {
    if ns == [] then [] else FromNeighbours(ns[..|ns| - 1]) + FromNeighbour(ns[|ns| - 1])
  }

  /** Everything announced, in the order in which it is gathered. */
  function Announced(fs: seq<Interface>, rid: Ip): seq<Announcement> {
    if fs == [] then []
    else
      var f := fs[|fs| - 1];
      Announced(fs[..|fs| - 1], rid) + [OwnLsa(f, rid)] + FromNeighbours(f.neighbours)
  }

  /** Something a neighbour of an interface has announced. */
  ghost predicate Relayed(f: Interface, a: Announcement) {
    exists n, l | n in f.neighbours && l in n.lsas :: a == Announcement(l, n.ip)
  }

  /** What the router is told of: the subnets of its own interfaces, and whatever a neighbour has announced. */
  ghost predicate Told(fs: seq<Interface>, rid: Ip, a: Announcement) {
    exists f | f in fs :: a == Announcement(Lsa(SubnetOf(f), f.mask, rid), 0) || Relayed(f, a)
  }

  /** Everything the router is told of is gathered, and nothing else. */
  lemma {:induction false} AnnouncedMeans(fs: seq<Interface>, rid: Ip, a: Announcement)
    ensures a in Announced(fs, rid) <==> Told(fs, rid, a)
  {
    hide Relayed;
    if fs != [] {
      var front, f := fs[..|fs| - 1], fs[|fs| - 1];
      AnnouncedMeans(front, rid, a);
      RelayedMeans(f, f.neighbours, a);
      assert fs == front + [f];
      assert forall g :: g in fs <==> g in front || g == f;
    }
  }

  lemma RelayedMeans(f: Interface, ns: seq<Neighbour>, a: Announcement)
    requires f.neighbours == ns
    ensures a in FromNeighbours(ns) <==> Relayed(f, a)
  {
    FromNeighboursMeans(ns, a);
  }

  lemma {:induction false} FromNeighboursMeans(ns: seq<Neighbour>, a: Announcement)
    ensures a in FromNeighbours(ns) <==> exists n, l | n in ns && l in n.lsas :: a == Announcement(l, n.ip)
  {
    if ns != [] {
      var front, m := ns[..|ns| - 1], ns[|ns| - 1];
      FromNeighboursMeans(front, a);
      assert ns == front + [m];
      FromNeighbourMeans(m, a);
    }
  }

  lemma FromNeighbourMeans(m: Neighbour, a: Announcement)
    ensures a in FromNeighbour(m) <==> exists l | l in m.lsas :: a == Announcement(l, m.ip)
  {
    if l :| l in m.lsas && a == Announcement(l, m.ip) {
      var i :| 0 <= i < |m.lsas| && m.lsas[i] == l;
      assert FromNeighbour(m)[i] == a;
    }
  }

  function Links(s: seq<Announcement>): (r: seq<Link>)
    ensures |r| == |s|
  {
    seq(|s|, i requires 0 <= i < |s| => LinkOf(s[i]))
  }

  /** The last immediate neighbour that has announced anything. */
  function NextHop(ns: seq<Neighbour>): Ip {
    if ns == [] then 0
    else if ns[|ns| - 1].immediate && ns[|ns| - 1].lsas != [] then ns[|ns| - 1].ip
    else NextHop(ns[..|ns| - 1])
  }

  /** The next hop is an immediate neighbour that has announced something, the last such one; without any it is 0. */
  lemma {:induction false} NextHopMeans(ns: seq<Neighbour>)
    ensures (forall i | 0 <= i < |ns| :: !(ns[i].immediate && ns[i].lsas != [])) ==> NextHop(ns) == 0
    ensures forall k | 0 <= k < |ns| && ns[k].immediate && ns[k].lsas != []
              && (forall i | k < i < |ns| :: !(ns[i].immediate && ns[i].lsas != [])) :: NextHop(ns) == ns[k].ip
  {
    if ns != [] {
      NextHopMeans(ns[..|ns| - 1]);
    }
  }

  /** The subnets and the announcements known after gathering `s`. */
  datatype Known = Known(subnets: seq<Link>, topology: seq<Announcement>)

  function KnownFrom(s: seq<Announcement>): Known {
    Known(Distinct(Links(s)), Distinct(s))
  }

  function NothingKnown(): (r: Known)
    ensures r == KnownFrom([])
  {
    Known([], [])
  }

  lemma KnownStep(s: seq<Announcement>, a: Announcement)
    ensures KnownFrom(s + [a]) == Known(AddNew(KnownFrom(s).subnets, LinkOf(a)), AddNew(KnownFrom(s).topology, a))
  {
    assert Links(s + [a]) == Links(s) + [LinkOf(a)];
    DistinctStep(Links(s), LinkOf(a));
    DistinctStep(s, a);
  }

  /** A subnet is known exactly when something announces it. */
  lemma KnownMeans(s: seq<Announcement>)
    ensures NoRepeats(KnownFrom(s).subnets) && NoRepeats(KnownFrom(s).topology)
    ensures forall a :: a in KnownFrom(s).topology <==> a in s
    ensures forall a | a in s :: LinkOf(a) in KnownFrom(s).subnets
    ensures forall l | l in KnownFrom(s).subnets :: exists a :: a in s && LinkOf(a) == l
  {
    DistinctMeans(s);
    DistinctMeans(Links(s));
    forall a | a in s
      ensures LinkOf(a) in Links(s)
    {
      var i :| 0 <= i < |s| && s[i] == a;
      assert Links(s)[i] == LinkOf(a);
    }
  }

  method Gather(fs: seq<Interface>, rid: Ip) returns (known: Known, routers: seq<Ip>)
    ensures known == KnownFrom(Announced(fs, rid))
    ensures |routers| == |fs| && forall i | 0 <= i < |fs| :: routers[i] == NextHop(fs[i].neighbours)
  {
    known, routers := NothingKnown(), [];
    hide KnownFrom, FromNeighbours, NextHop, OwnLsa, NothingKnown;
    for i := 0 to |fs|
      invariant known == KnownFrom(Announced(fs[..i], rid))
      invariant |routers| == i && forall j | 0 <= j < i :: routers[j] == NextHop(fs[j].neighbours)
    {
      assert fs[..i + 1][..i] == fs[..i];
      var own := OwnLsa(fs[i], rid);
      ghost var before := Announced(fs[..i], rid);
      KnownStep(before, own);
      known := Add(known, own);
      var router;
      known, router := AddNeighbours(known, fs[i].neighbours, before + [own]);
      routers := routers + [router];
    }
    assert fs[..|fs|] == fs;
  }

  method Add(known: Known, a: Announcement) returns (r: Known)
    ensures r == Known(AddNew(known.subnets, LinkOf(a)), AddNew(known.topology, a))
  {
    r := known;
    var k := IndexOf(r.subnets, LinkOf(a));
    if k == -1 {
      r := r.(subnets := r.subnets + [LinkOf(a)]);
    }
    k := IndexOf(r.topology, a);
    if k == -1 {
      r := r.(topology := r.topology + [a]);
    }
  }

  method AddNeighbour(known: Known, m: Neighbour, hop: Ip, ghost before: seq<Announcement>) returns (r: Known, router: Ip)
    requires known == KnownFrom(before)
    ensures r == KnownFrom(before + FromNeighbour(m))
    ensures router == if m.immediate && m.lsas != [] then m.ip else hop
  {
    hide KnownFrom;
    ghost var news := FromNeighbour(m);
    r, router := known, hop;
    assert before + news[..0] == before;
    for j := 0 to |m.lsas|
      invariant r == KnownFrom(before + news[..j])
      invariant router == if j > 0 && m.immediate then m.ip else hop
    {
      var a := Announcement(m.lsas[j], m.ip);
      assert before + news[..j + 1] == (before + news[..j]) + [a];
      KnownStep(before + news[..j], a);
      if m.immediate {
        router := m.ip;
      }
      r := Add(r, a);
    }
    assert news[..|m.lsas|] == news;
  }

  method AddNeighbours(known: Known, ns: seq<Neighbour>, ghost before: seq<Announcement>) returns (r: Known, router: Ip)
    requires known == KnownFrom(before)
    ensures r == KnownFrom(before + FromNeighbours(ns))
    ensures router == NextHop(ns)
  {
    r, router := known, 0;
    assert before + FromNeighbours(ns[..0]) == before;
    for n := 0 to |ns|
      invariant r == KnownFrom(before + FromNeighbours(ns[..n]))
      invariant router == NextHop(ns[..n])
    {
      hide KnownFrom, FromNeighbour;
      assert ns[..n + 1][..n] == ns[..n];
      r, router := AddNeighbour(r, ns[n], router, before + FromNeighbours(ns[..n]));
      assert (before + FromNeighbours(ns[..n])) + FromNeighbour(ns[n]) ==
             before + (FromNeighbours(ns[..n]) + FromNeighbour(ns[n]));
    }
    assert ns[..|ns|] == ns;
  }

  // ---- The graph of subnets -----------------------------------------------------

  /** Two announcements by one router of different subnet numbers. */
  predicate Joins(a: Announcement, b: Announcement) {
    a.lsa.routerId == b.lsa.routerId && a.lsa.subnet != b.lsa.subnet
  }

  predicate Adjacent(t: seq<Announcement>, x: Link, y: Link) {
    exists a, b :: a in t && b in t && Joins(a, b) && LinkOf(a) == x && LinkOf(b) == y
  }

  /** Subnets are adjacent when some router announces both. */
  ghost function SubnetEdges(known: Known): Edges {
    set u, v | 0 <= u < |known.subnets| && 0 <= v < |known.subnets|
               && Adjacent(known.topology, known.subnets[u], known.subnets[v]) :: (u, v)
  }

  predicate Links2(a: Announcement, b: Announcement, x: Link, y: Link) {
    Joins(a, b) && ((LinkOf(a) == x && LinkOf(b) == y) || (LinkOf(a) == y && LinkOf(b) == x))
  }

  /** A pair of positions at or before (k, p) in the order of the two loops joins `x` and `y`. */
  ghost predicate PairDone(t: seq<Announcement>, x: Link, y: Link, k: int, p: int) {
    exists i, j | 0 <= i < j < |t| :: (i < k || (i == k && j < p)) && Links2(t[i], t[j], x, y)
  }

  lemma PairStep(t: seq<Announcement>, x: Link, y: Link, k: int, p: int)
    requires 0 <= k < p < |t|
    ensures PairDone(t, x, y, k, p + 1) <==> PairDone(t, x, y, k, p) || Links2(t[k], t[p], x, y)
  {
  }

  lemma PairRow(t: seq<Announcement>, x: Link, y: Link, k: int)
    requires 0 <= k < |t|
    ensures PairDone(t, x, y, k, |t|) <==> PairDone(t, x, y, k + 1, k + 2)
  {
  }

  lemma PairsAreAdjacent(t: seq<Announcement>, x: Link, y: Link)
    ensures PairDone(t, x, y, |t|, 0) <==> Adjacent(t, x, y)
  {
    if Adjacent(t, x, y) {
      var a, b :| a in t && b in t && Joins(a, b) && LinkOf(a) == x && LinkOf(b) == y;
      var i, j :| 0 <= i < |t| && 0 <= j < |t| && t[i] == a && t[j] == b;
      assert if i < j then Links2(t[i], t[j], x, y) else Links2(t[j], t[i], x, y);
    }
  }

  ghost predicate Marked(graph: array2<int>, known: Known, k: int, p: int)
    reads graph
  {
    && graph.Length0 == graph.Length1 == |known.subnets|
    && forall u, v | 0 <= u < graph.Length0 && 0 <= v < graph.Length1 ::
         graph[u, v] == if PairDone(known.topology, known.subnets[u], known.subnets[v], k, p) then 1 else 0
  }

  ghost predicate Consistent(known: Known) {
    NoRepeats(known.subnets) && forall a | a in known.topology :: LinkOf(a) in known.subnets
  }

  /** One pair of announcements: the two subnets become adjacent in both directions. */
  method Mark(graph: array2<int>, known: Known, k: int, p: int)
    requires Consistent(known) && 0 <= k < p < |known.topology| && Marked(graph, known, k, p)
    modifies graph
    ensures Marked(graph, known, k, p + 1)
  {
    hide PairDone, Adjacent;
    var a, b := known.topology[k], known.topology[p];
    forall x, y
      ensures PairDone(known.topology, x, y, k, p + 1) <==> PairDone(known.topology, x, y, k, p) || Links2(a, b, x, y)
    {
      PairStep(known.topology, x, y, k, p);
    }
    if a.lsa.routerId == b.lsa.routerId && a.lsa.subnet != b.lsa.subnet {
      assert a in known.topology && b in known.topology;
      var id1 := IndexOf(known.subnets, LinkOf(a));
      var id2 := IndexOf(known.subnets, LinkOf(b));
      graph[id1, id2] := 1;
      graph[id2, id1] := 1;
    }
  }

  /** Populating the graph: its edges are exactly the adjacent subnets. */
  method BuildGraph(known: Known) returns (graph: array2<int>)
    requires Consistent(known) && |known.subnets| < INT_MAX
    ensures fresh(graph) && IsGraph(graph) && graph.Length0 == |known.subnets|
    ensures EdgesOf(graph) == SubnetEdges(known)
  {
    hide Adjacent, Links2;
    var n, t := |known.subnets|, known.topology;
    graph := new int[n, n]((_, _) => 0);
    assert Marked(graph, known, 0, 1);
    for k := 0 to |t|
      invariant Marked(graph, known, k, k + 1)
    {
      for p := k + 1 to |t|
        invariant Marked(graph, known, k, p)
      {
        Mark(graph, known, k, p);
      }
      RowDone(graph, known, k);
    }
    GraphDone(graph, known);
  }

  lemma RowDone(graph: array2<int>, known: Known, k: int)
    requires 0 <= k < |known.topology| && Marked(graph, known, k, |known.topology|)
    ensures Marked(graph, known, k + 1, k + 2)
  {
    hide PairDone;
    forall u, v | 0 <= u < graph.Length0 && 0 <= v < graph.Length1
      ensures graph[u, v] == if PairDone(known.topology, known.subnets[u], known.subnets[v], k + 1, k + 2) then 1 else 0
    {
      PairRow(known.topology, known.subnets[u], known.subnets[v], k);
    }
  }

  lemma GraphDone(graph: array2<int>, known: Known)
    requires Marked(graph, known, |known.topology|, |known.topology| + 1)
    ensures EdgesOf(graph) == SubnetEdges(known)
  {
    hide Adjacent;
    var t := known.topology;
    forall u, v | 0 <= u < graph.Length0 && 0 <= v < graph.Length1
      ensures graph[u, v] != 0 <==> Adjacent(t, known.subnets[u], known.subnets[v])
    {
      PairsAreAdjacent(t, known.subnets[u], known.subnets[v]);
    }
  }

  // ---- Distances from every interface ----------------------------------------------

  ghost predicate Sources(fs: seq<Interface>, subnets: seq<Link>, srcs: seq<int>) {
    && |srcs| == |fs|
    && forall i | 0 <= i < |fs| :: 0 <= srcs[i] < |subnets| && subnets[srcs[i]] == Link(SubnetOf(fs[i]), fs[i].mask)
  }

  /** What the merge loop has established for every subnet after the interfaces `srcs`. */
  ghost predicate Merged(e: Edges, srcs: seq<int>, best: seq<int>, intf: seq<int>) {
    |best| == |intf| && forall w | 0 <= w < |best| :: Best(e, srcs, w, best[w], intf[w])
  }

  ghost predicate HasBest(e: Edges, srcs: seq<int>, w: int) {
    exists f, k :: Best(e, srcs, w, f, k)
  }

  lemma MergedHasBest(e: Edges, srcs: seq<int>, best: seq<int>, intf: seq<int>)
    requires Merged(e, srcs, best, intf)
    ensures forall w | 0 <= w < |best| :: HasBest(e, srcs, w)
  {
    forall w | 0 <= w < |best|
      ensures HasBest(e, srcs, w)
    {
      assert Best(e, srcs, w, best[w], intf[w]);
    }
  }

  lemma NoSources(e: Edges, w: int)
    ensures Best(e, [], w, INT_MAX, INT_MAX)
  {
  }

  /** The next hop recorded for a subnet belongs to the interface chosen for it. */
  ghost predicate Hops(fs: seq<Interface>, subnets: seq<Link>, intf: seq<int>, rips: seq<Ip>) {
    && |subnets| == |intf| == |rips|
    && forall w | 0 <= w < |intf| && 0 <= intf[w] < |fs| :: rips[w] == HopFor(fs[intf[w]], subnets[w].subnet)
  }

  function HopFor(f: Interface, subnet: Ip): Ip {
    if subnet == SubnetOf(f) then 0 else NextHop(f.neighbours)
  }

  /** The merge loop for one interface: a strictly shorter distance wins. */
  method Merge(fs: seq<Interface>, subnets: seq<Link>, hop: Ip, dist: array<int>, best: array<int>, intf: array<int>,
               rips: array<Ip>, i: nat, s: int, ghost e: Edges, ghost srcs: seq<int>)
    requires dist.Length == best.Length == intf.Length == rips.Length == |subnets|
    requires best != intf && best != dist && intf != dist
    requires rips as object !in {best as object, intf as object, dist as object}
    requires i == |srcs| < |fs| < INT_MAX && hop == NextHop(fs[i].neighbours)
    requires Merged(e, srcs, best[..], intf[..]) && forall w | 0 <= w < dist.Length :: IsDist(e, s, w, dist[w])
    requires Hops(fs, subnets, intf[..], rips[..])
    modifies best, intf, rips
    ensures Merged(e, srcs + [s], best[..], intf[..])
    ensures Hops(fs, subnets, intf[..], rips[..])
  {
    hide Best, IsDist, SubnetOf;
    assert forall w | 0 <= w < dist.Length :: best[..][w] == best[w] && intf[..][w] == intf[w] && rips[..][w] == rips[w];
    for w := 0 to dist.Length
      invariant forall x | 0 <= x < w :: Best(e, srcs + [s], x, best[x], intf[x])
      invariant forall x | w <= x < dist.Length :: Best(e, srcs, x, best[x], intf[x])
      invariant forall x | 0 <= x < dist.Length && 0 <= intf[x] < |fs| :: rips[x] == HopFor(fs[intf[x]], subnets[x].subnet)
    {
      MergeStep(e, srcs, w, best[w], intf[w], s, dist[w]);
      if dist[w] < best[w] {
        best[w] := dist[w];
        intf[w] := i;
        rips[w] := if subnets[w].subnet == SubnetOf(fs[i]) then 0 else hop;
      }
    }
  }

  lemma OwnSubnetKnown(fs: seq<Interface>, rid: Ip, i: nat)
    requires i < |fs|
    ensures OwnLsa(fs[i], rid) in Announced(fs, rid)
  {
    if i < |fs| - 1 {
      OwnSubnetKnown(fs[..|fs| - 1], rid, i);
    }
  }

  lemma GatheredConsistent(fs: seq<Interface>, rid: Ip)
    ensures Consistent(KnownFrom(Announced(fs, rid)))
    ensures forall i | 0 <= i < |fs| :: Link(SubnetOf(fs[i]), fs[i].mask) in KnownFrom(Announced(fs, rid)).subnets
  {
    KnownMeans(Announced(fs, rid));
    forall i | 0 <= i < |fs|
      ensures Link(SubnetOf(fs[i]), fs[i].mask) in KnownFrom(Announced(fs, rid)).subnets
    {
      OwnSubnetKnown(fs, rid, i);
      assert LinkOf(OwnLsa(fs[i], rid)) == Link(SubnetOf(fs[i]), fs[i].mask);
    }
  }

  /** The loop over the interfaces. */
  method Search(fs: seq<Interface>, known: Known, routers: seq<Ip>, graph: array2<int>, best: array<int>, intf: array<int>, rips: array<Ip>)
    returns (ghost srcs: seq<int>)
    requires |fs| < INT_MAX && |routers| == |fs| && forall i | 0 <= i < |fs| :: routers[i] == NextHop(fs[i].neighbours)
    requires forall i | 0 <= i < |fs| :: Link(SubnetOf(fs[i]), fs[i].mask) in known.subnets
    requires IsGraph(graph) && graph.Length0 == |known.subnets| == best.Length == intf.Length == rips.Length
    requires best != intf && rips as object !in {best as object, intf as object}
    modifies best, intf, rips
    ensures Sources(fs, known.subnets, srcs)
    ensures Merged(EdgesOf(graph), srcs, best[..], intf[..])
    ensures Hops(fs, known.subnets, intf[..], rips[..])
  {
    hide Best, IsDist, EdgesOf, HopFor;
    var n := |known.subnets|;
    var dist, visited := new int[n], new bool[n];
    for w := 0 to n
      invariant forall x | 0 <= x < w :: best[x] == INT_MAX == intf[x]
    {
      best[w], intf[w] := INT_MAX, INT_MAX;
    }
    srcs := [];
    forall w | 0 <= w < n
      ensures Best(EdgesOf(graph), [], w, best[..][w], intf[..][w])
    {
      NoSources(EdgesOf(graph), w);
    }
    for i := 0 to |fs|
      invariant Sources(fs[..i], known.subnets, srcs)
      invariant Merged(EdgesOf(graph), srcs, best[..], intf[..])
      invariant Hops(fs, known.subnets, intf[..], rips[..])
    {
      var id := IndexOf(known.subnets, Link(SubnetOf(fs[i]), fs[i].mask));
      Distances(graph, id, dist, visited);
      Merge(fs, known.subnets, routers[i], dist, best, intf, rips, i, id, EdgesOf(graph), srcs);
      srcs := srcs + [id];
    }
    assert fs[..|fs|] == fs;
  }

  // ---- Rebuilding the table ----------------------------------------------------------

  function DynamicEntry(f: Interface, l: Link, k: int, metric: int): Entry {
    Entry(NextHop(f.neighbours), l.subnet, l.netmask, k, metric, true)
  }

  /** The route to the subnet at `w`: it is reached, through interface `k` at distance `metric`, and its number
      differs from that interface's own. */
  ghost predicate RouteTo(fs: seq<Interface>, known: Known, srcs: seq<int>, w: int, x: Entry) {
    && 0 <= w < |known.subnets|
    && 0 <= x.iface < |fs|
    && x.metric < INT_MAX
    && Best(SubnetEdges(known), srcs, w, x.metric, x.iface)
    && SubnetOf(fs[x.iface]) != known.subnets[w].subnet
    && x == DynamicEntry(fs[x.iface], known.subnets[w], x.iface, x.metric)
  }

  ghost predicate IsRoute(fs: seq<Interface>, known: Known, srcs: seq<int>, x: Entry) {
    exists w :: RouteTo(fs, known, srcs, w, x)
  }

  method Routes(fs: seq<Interface>, known: Known, best: array<int>, intf: array<int>, rips: array<Ip>, ghost srcs: seq<int>)
    returns (entries: seq<Entry>)
    requires |known.subnets| == best.Length == intf.Length == rips.Length && |srcs| == |fs| < INT_MAX
    requires Merged(SubnetEdges(known), srcs, best[..], intf[..]) && Hops(fs, known.subnets, intf[..], rips[..])
    ensures forall x :: x in entries <==> IsRoute(fs, known, srcs, x)
  {
    hide Best, SubnetOf;
    entries := [];
    assert forall w | 0 <= w < best.Length :: best[..][w] == best[w] && intf[..][w] == intf[w] && rips[..][w] == rips[w];
    for q := 0 to best.Length
      invariant forall x :: x in entries <==> exists w | 0 <= w < q :: RouteTo(fs, known, srcs, w, x)
    {
      ghost var before := entries;
      BestChoice(SubnetEdges(known), srcs, q, best[q], intf[q]);
      if 0 <= intf[q] < |fs| {
        if SubnetOf(fs[intf[q]]) != known.subnets[q].subnet {
          entries := entries + [Entry(rips[q], known.subnets[q].subnet, known.subnets[q].netmask, intf[q], best[q], true)];
        }
      }
      forall x
        ensures x in entries <==> exists w | 0 <= w < q + 1 :: RouteTo(fs, known, srcs, w, x)
      {
        if RouteTo(fs, known, srcs, q, x) {
          BestUnique(SubnetEdges(known), srcs, q, best[q], intf[q], x.metric, x.iface);
        }
        if x in entries && x !in before {
          assert RouteTo(fs, known, srcs, q, x);
        }
      }
    }
  }

  lemma BestChoice(e: Edges, srcs: seq<int>, v: int, f: int, k: int)
    requires Best(e, srcs, v, f, k) && |srcs| < INT_MAX
    ensures 0 <= k < |srcs| <==> f < INT_MAX
  {
  }

  /** The order of cmpfunc on netmasks as the host reads them. */
  predicate MaskLeq(a: Entry, b: Entry) {
    a.netmask <= b.netmask
  }

  predicate ByMask(q: seq<Entry>) {
    forall i, j | 0 <= i < j < |q| :: MaskLeq(q[i], q[j])
  }

  lemma MaskOrder(x: Entry, y: Entry, z: Entry)
    requires !MaskLeq(y, x) && (y == z || MaskLeq(y, z))
    ensures MaskLeq(x, z)
  {
  }

  lemma InsertByMask(r: seq<Entry>, k: nat, x: Entry)
    requires ByMask(r) && k <= |r|
    requires forall j | 0 <= j < k :: MaskLeq(r[j], x)
    requires k < |r| ==> !MaskLeq(r[k], x)
    ensures ByMask(r[..k] + [x] + r[k..])
  {
    hide MaskLeq;
    forall j | k <= j < |r|
      ensures MaskLeq(x, r[j])
    {
      MaskOrder(x, r[k], r[j]);
    }
    var s := r[..k] + [x] + r[k..];
    forall i, j | 0 <= i < j < |s|
      ensures MaskLeq(s[i], s[j])
    {
      var i', j' := if i < k then i else i - 1, if j < k then j else j - 1;
      assert i != k ==> s[i] == r[i'];
      assert j != k ==> s[j] == r[j'];
    }
  }

  /** A sort by netmask; which of the entries with one netmask comes first is left open, as it is with qsort. */
  method SortByMask(q: seq<Entry>) returns (r: seq<Entry>)
    ensures ByMask(r) && multiset(r) == multiset(q)
  {
    hide MaskLeq;
    r := [];
    for i := 0 to |q|
      invariant ByMask(r) && multiset(r) == multiset(q[..i])
    {
      var k := 0;
      while k < |r| && MaskLeq(r[k], q[i])
        invariant 0 <= k <= |r|
        invariant forall j | 0 <= j < k :: MaskLeq(r[j], q[i])
      {
        k := k + 1;
      }
      InsertByMask(r, k, q[i]);
      assert r == r[..k] + r[k..] && q[..i + 1] == q[..i] + [q[i]];
      hide ByMask;
      r := r[..k] + [q[i]] + r[k..];
    }
    assert q[..|q|] == q;
  }

  /** Adding the sorted entries one by one, skipping repeats. */
  method Install(q: seq<Entry>) returns (table: seq<Entry>)
    requires ByMask(q)
    ensures ByMask(table) && NoRepeats(table) && forall x :: x in table <==> x in q
  {
    hide MaskLeq;
    table := [];
    for i := 0 to |q|
      invariant NoRepeats(table) && forall x :: x in table <==> x in q[..i]
      invariant ByMask(table)
    {
      forall j | 0 <= j < |table|
        ensures MaskLeq(table[j], q[i])
      {
        assert table[j] in table;
        var m :| 0 <= m < i && q[m] == table[j];
      }
      assert q[..i + 1] == q[..i] + [q[i]];
      var k := IndexOf(table, q[i]);
      if k == -1 {
        table := table + [q[i]];
      }
    }
    assert q[..|q|] == q;
  }

  // ---- Routes over announced subnets, without their numbering ---------------------------------

  /** Some router is told to be on both subnets. */
  ghost predicate Near(fs: seq<Interface>, rid: Ip, x: Link, y: Link) {
    exists a, b | Told(fs, rid, a) && Told(fs, rid, b) :: Joins(a, b) && LinkOf(a) == x && LinkOf(b) == y
  }

  /** A way from subnet to subnet, each hop over a router that is on both. */
  ghost predicate Way(fs: seq<Interface>, rid: Ip, from: Link, to: Link, p: seq<Link>) {
    && p != []
    && p[0] == from
    && p[|p| - 1] == to
    && forall i | 0 < i < |p| :: Near(fs, rid, p[i - 1], p[i])
  }

  function OwnLink(f: Interface): Link {
    Link(SubnetOf(f), f.mask)
  }

  /** A way of `d` hops leads from interface `k` to the subnet. No interface has a shorter one, and no earlier interface one
      as short. */
  ghost predicate Shortest(fs: seq<Interface>, rid: Ip, to: Link, k: int, d: int) {
    && 0 <= k < |fs|
    && (exists p :: Way(fs, rid, OwnLink(fs[k]), to, p) && |p| == d + 1)
    && forall i, p | 0 <= i < |fs| && Way(fs, rid, OwnLink(fs[i]), to, p) :: d < |p| && (i < k ==> d + 1 < |p|)
  }

  /** The route that a subnet other than those of the interface itself is due. */
  ghost predicate DueRoute(fs: seq<Interface>, rid: Ip, x: Entry) {
    && Shortest(fs, rid, Link(x.subnet, x.netmask), x.iface, x.metric)
    && x.subnet != SubnetOf(fs[x.iface])
    && x.routerIp == NextHop(fs[x.iface].neighbours)
    && x.dynamic
  }

  /** The table holds the static routes and exactly the routes that are due, each once, ordered by netmask. */
  ghost predicate Routed(fs: seq<Interface>, rid: Ip, before: seq<Entry>, after: seq<Entry>) {
    && NoRepeats(after) && ByMask(after)
    && forall x :: x in after <==> (x in before && !x.dynamic) || DueRoute(fs, rid, x)
  }

  /** Subnet numbers are adjacent exactly when the subnets are near. */
  lemma EdgeIsNear(fs: seq<Interface>, rid: Ip, u: int, v: int)
    requires var n := |KnownFrom(Announced(fs, rid)).subnets|; 0 <= u < n && 0 <= v < n
    ensures var known := KnownFrom(Announced(fs, rid));
            (u, v) in SubnetEdges(known) <==> Near(fs, rid, known.subnets[u], known.subnets[v])
  {
    var s := Announced(fs, rid);
    var known := KnownFrom(s);
    KnownMeans(s);
    forall a
      ensures a in known.topology <==> Told(fs, rid, a)
    {
      AnnouncedMeans(fs, rid, a);
    }
    hide Told, KnownFrom, Announced;
  }

  lemma NearKnown(fs: seq<Interface>, rid: Ip, x: Link, y: Link)
    requires Near(fs, rid, x, y)
    ensures y in KnownFrom(Announced(fs, rid)).subnets
  {
    var a, b :| Told(fs, rid, a) && Told(fs, rid, b) && Joins(a, b) && LinkOf(a) == x && LinkOf(b) == y;
    AnnouncedMeans(fs, rid, b);
    KnownMeans(Announced(fs, rid));
  }

  function Named(subnets: seq<Link>, p: seq<int>): (q: seq<Link>)
    requires forall i | 0 <= i < |p| :: 0 <= p[i] < |subnets|
    ensures |q| == |p| && forall i | 0 <= i < |p| :: q[i] == subnets[p[i]]
  {
    seq(|p|, i requires 0 <= i < |p| => subnets[p[i]])
  }

  /** A walk over subnet numbers is a way over subnets. */
  lemma WalkIsWay(fs: seq<Interface>, rid: Ip, u: int, v: int, p: seq<int>) returns (q: seq<Link>)
    requires var known := KnownFrom(Announced(fs, rid)); 0 <= u < |known.subnets| && Walk(SubnetEdges(known), u, v, p)
    ensures var known := KnownFrom(Announced(fs, rid));
            0 <= v < |known.subnets| && |q| == |p| && Way(fs, rid, known.subnets[u], known.subnets[v], q)
  {
    var known := KnownFrom(Announced(fs, rid));
    hide KnownFrom, Announced, Near, Adjacent;
    WalkWithin(known, u, v, p);
    q := Named(known.subnets, p);
    forall i | 0 < i < |q|
      ensures Near(fs, rid, q[i - 1], q[i])
    {
      assert (p[i - 1], p[i]) in SubnetEdges(known);
      EdgeIsNear(fs, rid, p[i - 1], p[i]);
    }
  }

  lemma WalkWithin(known: Known, u: int, v: int, p: seq<int>)
    requires 0 <= u < |known.subnets| && Walk(SubnetEdges(known), u, v, p)
    ensures forall i | 0 <= i < |p| :: 0 <= p[i] < |known.subnets|
  {
    forall i | 0 <= i < |p|
      ensures 0 <= p[i] < |known.subnets|
    {
      if i > 0 {
        assert (p[i - 1], p[i]) in SubnetEdges(known);
      }
    }
  }

  /** And the other way round. */
  lemma {:induction false} WayIsWalk(fs: seq<Interface>, rid: Ip, u: int, to: Link, q: seq<Link>) returns (v: int, p: seq<int>)
    requires var known := KnownFrom(Announced(fs, rid)); 0 <= u < |known.subnets| && Way(fs, rid, known.subnets[u], to, q)
    ensures var known := KnownFrom(Announced(fs, rid));
            0 <= v < |known.subnets| && known.subnets[v] == to && |p| == |q| && Walk(SubnetEdges(known), u, v, p)
    decreases |q|
  {
    var known := KnownFrom(Announced(fs, rid));
    hide KnownFrom, Announced, Near, Adjacent, SubnetEdges;
    if |q| == 1 {
      v, p := u, [u];
    } else {
      var front, last := q[..|q| - 1], q[|q| - 2];
      assert forall i | 0 <= i < |front| :: front[i] == q[i];
      assert Near(fs, rid, q[|q| - 1 - 1], q[|q| - 1]);
      var m, r := WayIsWalk(fs, rid, u, last, front);
      NearKnown(fs, rid, last, to);
      v :| 0 <= v < |known.subnets| && known.subnets[v] == to;
      EdgeIsNear(fs, rid, m, v);
      p := r + [v];
    }
  }

  /** The numbered minimum is the one over subnets. */
  lemma BestIsShortest(fs: seq<Interface>, rid: Ip, srcs: seq<int>, w: int, f: int, k: int)
    requires var known := KnownFrom(Announced(fs, rid));
             Sources(fs, known.subnets, srcs) && 0 <= w < |known.subnets| && Best(SubnetEdges(known), srcs, w, f, k) && f < INT_MAX
    ensures Shortest(fs, rid, KnownFrom(Announced(fs, rid)).subnets[w], k, f)
  {
    var known := KnownFrom(Announced(fs, rid));
    KnownMeans(Announced(fs, rid));
    hide KnownFrom, Announced, Near, Adjacent, SubnetEdges, Way;
    var e, to := SubnetEdges(known), known.subnets[w];
    var p :| Walk(e, srcs[k], w, p) && |p| == f + 1;
    var q := WalkIsWay(fs, rid, srcs[k], w, p);
    forall i, r | 0 <= i < |fs| && Way(fs, rid, OwnLink(fs[i]), to, r)
      ensures f < |r| && (i < k ==> f + 1 < |r|)
    {
      var v, p' := WayIsWalk(fs, rid, srcs[i], to, r);
      assert Least(e, srcs[i], w, f);
      assert i < k ==> Farther(e, srcs[i], w, f);
    }
  }

  lemma ShortestUnique(fs: seq<Interface>, rid: Ip, to: Link, k: int, d: int, k': int, d': int)
    requires Shortest(fs, rid, to, k, d) && Shortest(fs, rid, to, k', d')
    ensures k == k' && d == d'
  {
    hide Way;
    var p :| Way(fs, rid, OwnLink(fs[k]), to, p) && |p| == d + 1;
    var p' :| Way(fs, rid, OwnLink(fs[k']), to, p') && |p'| == d' + 1;
  }

  /** A subnet to which some interface has a way has a number, and a finite minimum. */
  lemma ShortestIsBest(fs: seq<Interface>, rid: Ip, srcs: seq<int>, to: Link, k: int, d: int) returns (w: int)
    requires var known := KnownFrom(Announced(fs, rid));
             Sources(fs, known.subnets, srcs) && (forall v | 0 <= v < |known.subnets| :: HasBest(SubnetEdges(known), srcs, v))
    requires Shortest(fs, rid, to, k, d)
    ensures var known := KnownFrom(Announced(fs, rid));
            0 <= w < |known.subnets| && known.subnets[w] == to && d < INT_MAX && Best(SubnetEdges(known), srcs, w, d, k)
  {
    var known := KnownFrom(Announced(fs, rid));
    hide KnownFrom, Announced, Near, Adjacent, SubnetEdges, Way;
    var q :| Way(fs, rid, OwnLink(fs[k]), to, q) && |q| == d + 1;
    var p;
    w, p := WayIsWalk(fs, rid, srcs[k], to, q);
    assert HasBest(SubnetEdges(known), srcs, w);
    var f, m :| Best(SubnetEdges(known), srcs, w, f, m);
    assert Least(SubnetEdges(known), srcs[k], w, f);
    BestIsShortest(fs, rid, srcs, w, f, m);
    ShortestUnique(fs, rid, to, k, d, m, f);
  }

  /** What a recomputation makes of a table: the old static routes and one dynamic route for each reached subnet. Every
      subnet has a least distance and a first interface that attains it. */
  ghost predicate Rebuilt(fs: seq<Interface>, rid: Ip, srcs: seq<int>, before: seq<Entry>, after: seq<Entry>) {
    var known := KnownFrom(Announced(fs, rid));
    && Sources(fs, known.subnets, srcs)
    && (forall w | 0 <= w < |known.subnets| :: HasBest(SubnetEdges(known), srcs, w))
    && NoRepeats(after) && ByMask(after)
    && forall x :: x in after <==> (x in before && !x.dynamic) || IsRoute(fs, known, srcs, x)
  }

  class Router {
    const routerId: Ip
    var interfaces: seq<Interface>
    var table: seq<Entry>

    constructor (rid: Ip, fs: seq<Interface>, statics: seq<Entry>)
      ensures routerId == rid && interfaces == fs && table == statics
    {
      routerId, interfaces, table := rid, fs, statics;
    }

    /** djikstra_recompute */
    method Recompute() returns (ghost srcs: seq<int>)
      requires |interfaces| < INT_MAX && |KnownFrom(Announced(interfaces, routerId)).subnets| < INT_MAX
      modifies this`table
      ensures Rebuilt(interfaces, routerId, srcs, old(table), table)
      ensures Routed(interfaces, routerId, old(table), table)
    {
      hide KnownFrom, Announced, EdgesOf, SubnetEdges, IsGraph, ByMask, NoRepeats, Hops, Merged, Consistent, IsRoute, HasBest, Routed;
      var known, routers := Gather(interfaces, routerId);
      GatheredConsistent(interfaces, routerId);
      var graph := BuildGraph(known);
      var n := |known.subnets|;
      var best, intf, rips := new int[n], new int[n], new Ip[n];
      srcs := Search(interfaces, known, routers, graph, best, intf, rips);
      MergedHasBest(SubnetEdges(known), srcs, best[..], intf[..]);
      var entries := Routes(interfaces, known, best, intf, rips, srcs);
      var kept := KeepStatics();
      var sorted := SortByMask(entries + kept);
      assert forall x :: x in sorted <==> x in multiset(sorted);
      table := Install(sorted);
      RebuiltIsRouted(interfaces, routerId, srcs, old(table), table);
    }

    method KeepStatics() returns (kept: seq<Entry>)
      ensures forall x :: x in kept <==> x in table && !x.dynamic
    {
      kept := [];
      for q := 0 to |table|
        invariant forall x :: x in kept <==> x in table[..q] && !x.dynamic
      {
        assert table[..q + 1] == table[..q] + [table[q]];
        if !table[q].dynamic {
          kept := kept + [table[q]];
        }
      }
      assert table[..|table|] == table;
    }
  }

  /** A rebuilt table is routed: the numbering of the subnets does not show. */
  lemma RebuiltIsRouted(fs: seq<Interface>, rid: Ip, srcs: seq<int>, before: seq<Entry>, after: seq<Entry>)
    requires Rebuilt(fs, rid, srcs, before, after)
    ensures Routed(fs, rid, before, after)
  {
    hide KnownFrom, Announced, SubnetEdges, Best, Shortest, ByMask, HasBest;
    var known := KnownFrom(Announced(fs, rid));
    forall x
      ensures IsRoute(fs, known, srcs, x) <==> DueRoute(fs, rid, x)
    {
      if IsRoute(fs, known, srcs, x) {
        var w :| RouteTo(fs, known, srcs, w, x);
        BestIsShortest(fs, rid, srcs, w, x.metric, x.iface);
      }
      if DueRoute(fs, rid, x) {
        ShortestBounds(fs, rid, Link(x.subnet, x.netmask), x.iface, x.metric);
        var w := ShortestIsBest(fs, rid, srcs, Link(x.subnet, x.netmask), x.iface, x.metric);
        assert RouteTo(fs, known, srcs, w, x);
      }
    }
  }

  lemma ShortestBounds(fs: seq<Interface>, rid: Ip, to: Link, k: int, d: int)
    requires Shortest(fs, rid, to, k, d)
    ensures 0 <= k < |fs|
  {
  }

  lemma RebuiltKnown(fs: seq<Interface>, rid: Ip, srcs: seq<int>, before: seq<Entry>, after: seq<Entry>)
    requires Rebuilt(fs, rid, srcs, before, after)
    ensures NoRepeats(KnownFrom(Announced(fs, rid)).subnets)
  {
    KnownMeans(Announced(fs, rid));
  }

  /** The sources are determined by the interfaces. */
  lemma SourcesUnique(fs: seq<Interface>, subnets: seq<Link>, srcs: seq<int>, srcs': seq<int>)
    requires NoRepeats(subnets) && Sources(fs, subnets, srcs) && Sources(fs, subnets, srcs')
    ensures srcs == srcs'
  {
    forall i | 0 <= i < |fs|
      ensures srcs[i] == srcs'[i]
    {
      assert subnets[srcs[i]] == subnets[srcs'[i]];
    }
  }

  /** A subnet has at most one dynamic route, whatever the order of the announcements. */
  lemma OneRoutePerSubnet(fs: seq<Interface>, rid: Ip, srcs: seq<int>, x: Entry, y: Entry)
    requires var known := KnownFrom(Announced(fs, rid)); IsRoute(fs, known, srcs, x) && IsRoute(fs, known, srcs, y)
    requires x.subnet == y.subnet && x.netmask == y.netmask
    ensures x == y
  {
    hide KnownFrom, Announced, SubnetEdges, Best;
    var known := KnownFrom(Announced(fs, rid));
    KnownMeans(Announced(fs, rid));
    var v :| RouteTo(fs, known, srcs, v, x);
    var w :| RouteTo(fs, known, srcs, w, y);
    assert known.subnets[v] == known.subnets[w];
    BestUnique(SubnetEdges(known), srcs, v, x.metric, x.iface, y.metric, y.iface);
  }

  /** After a recomputation a subnet with no interface on its number has a dynamic route exactly when some interface
      reaches it. */
  lemma RoutedIffReached(fs: seq<Interface>, rid: Ip, srcs: seq<int>, before: seq<Entry>, after: seq<Entry>, w: int)
    requires |fs| < INT_MAX && Rebuilt(fs, rid, srcs, before, after)
    requires var known := KnownFrom(Announced(fs, rid));
             0 <= w < |known.subnets| && forall i | 0 <= i < |fs| :: SubnetOf(fs[i]) != known.subnets[w].subnet
    ensures var known := KnownFrom(Announced(fs, rid));
            (exists x :: x in after && RouteTo(fs, known, srcs, w, x)) <==>
            (exists i, p :: 0 <= i < |srcs| && Walk(SubnetEdges(known), srcs[i], w, p))
  {
    hide KnownFrom, Announced, SubnetEdges;
    var known := KnownFrom(Announced(fs, rid));
    var e := SubnetEdges(known);
    if x :| RouteTo(fs, known, srcs, w, x) {
      var p :| Walk(e, srcs[x.iface], w, p) && |p| == x.metric + 1;
    }
    if i, p :| 0 <= i < |srcs| && Walk(e, srcs[i], w, p) {
      assert HasBest(e, srcs, w);
      var f, k :| Best(e, srcs, w, f, k);
      assert Least(e, srcs[i], w, f);
      var x := DynamicEntry(fs[k], known.subnets[w], k, f);
      assert RouteTo(fs, known, srcs, w, x);
      assert IsRoute(fs, known, srcs, x) && x in after;
    }
  }

  /** Recomputing with nothing changed gives the same set of routes. */
  lemma RecomputeIdempotent(fs: seq<Interface>, rid: Ip, srcs: seq<int>, srcs': seq<int>,
                            t0: seq<Entry>, t1: seq<Entry>, t2: seq<Entry>)
    requires Rebuilt(fs, rid, srcs, t0, t1) && Rebuilt(fs, rid, srcs', t1, t2)
    ensures forall x :: x in t2 <==> x in t1
    ensures multiset(t1) == multiset(t2)
  {
    hide KnownFrom, Announced, SubnetEdges, Best, ByMask;
    RebuiltKnown(fs, rid, srcs, t0, t1);
    SourcesUnique(fs, KnownFrom(Announced(fs, rid)).subnets, srcs, srcs');
    forall x
      ensures x in t2 <==> x in t1
    {
    }
    forall x
      ensures multiset(t1)[x] == multiset(t2)[x]
    {
      CountOnce(t1, x);
      CountOnce(t2, x);
    }
  }

  lemma {:induction false} CountOnce(q: seq<Entry>, x: Entry)
    requires NoRepeats(q)
    ensures multiset(q)[x] == if x in q then 1 else 0
  {
    if q != [] {
      var t, y := q[..|q| - 1], q[|q| - 1];
      assert q == t + [y];
      CountOnce(t, x);
    }
  }

  /** A dynamic route's metric is the number of hops of a shortest walk from its interface's subnet, and no such
      walk visits a subnet of the router again. */
  lemma RouteIsShortest(fs: seq<Interface>, known: Known, srcs: seq<int>, w: int, x: Entry)
    requires |srcs| == |fs| && RouteTo(fs, known, srcs, w, x)
    ensures IsDist(SubnetEdges(known), srcs[x.iface], w, x.metric)
    ensures forall p, j | Walk(SubnetEdges(known), srcs[x.iface], w, p) && |p| == x.metric + 1 && 0 < j < |p| :: p[j] !in srcs
  {
    hide SubnetEdges;
    var e := SubnetEdges(known);
    assert Least(e, srcs[x.iface], w, x.metric);
    forall p, j | Walk(e, srcs[x.iface], w, p) && |p| == x.metric + 1 && 0 < j < |p|
      ensures p[j] !in srcs
    {
      ShortestAvoidsSources(e, srcs, w, x.metric, x.iface, p, j);
    }
  }
}
