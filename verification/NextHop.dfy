/** When the next hop recorded by the decision process starts a shortest path. The
    conditions speak of the graph and the local system only. */
module NextHop {
  import opened Wrappers
  import opened Lsps
  import opened Graphs
  import opened Interfaces
  import opened Spf
  import opened Decision

  /** The adjacency recorded for t is ours, UP, and begins a walk of t's distance. */
  ghost predicate HopCorrect(g: Graph, adjs: seq<Adjacency>, t: Triple) {
    && t.adj.Some? && t.adj.value in adjs && t.adj.value.state == UP
    && exists rest ::
         Walk(g, NeighborId(t.adj.value), t.systemID, rest) && t.adj.value.metric + Cost(rest) == t.distance
  }

  /** Some shortest path to v starts with our link to n. */
  ghost predicate StartsShortest(g: Graph, local: string, n: string, v: string) {
    exists m: nat, d: int :: Edge(local, n, m) in g && IsDistance(g, local, v, d) && IsDistance(g, n, v, d - m)
  }

  // ----- Discovery ------------------------------------------------------------------------

  /** u is no farther from us than x. */
  ghost predicate NoFarther(g: Graph, local: string, u: string, x: string) {
    forall du, dx :: IsDistance(g, local, u, du) && IsDistance(g, local, x, dx) ==> du <= dx
  }

  /** u is where v may first be met: ourselves if we have a link to v, otherwise a system
      with a link to v such that no other is nearer to us. */
  ghost predicate Discovers(g: Graph, local: string, u: string, v: string) {
    && HasEdge(g, u, v) && Reachable(g, local, u)
    && (u == local ||
         (!HasEdge(g, local, v) &&
          forall x :: HasEdge(g, x, v) && Reachable(g, local, x) ==> NoFarther(g, local, u, x)))
  }

  /** From a neighbour of ours each system is met through the one before it. */
  ghost predicate Chain(g: Graph, local: string, us: seq<string>) {
    && us != [] && Discovers(g, local, local, us[0])
    && (forall k :: 0 <= k < |us| ==> us[k] != local)
    && (forall k :: 0 < k < |us| ==> Discovers(g, local, us[k - 1], us[k]))
  }

  /** v may be met through our neighbour n. */
  ghost predicate FoundThrough(g: Graph, local: string, n: string, v: string) {
    exists us :: Chain(g, local, us) && us[0] == n && us[|us| - 1] == v
  }

  lemma ChainInit(g: Graph, local: string, us: seq<string>)
    requires Chain(g, local, us) && |us| > 1
    ensures Chain(g, local, us[..|us| - 1]) && Discovers(g, local, us[|us| - 2], us[|us| - 1])
  {
  }

  lemma ChainSnoc(g: Graph, local: string, us: seq<string>, v: string)
    requires Chain(g, local, us) && Discovers(g, local, us[|us| - 1], v) && v != local
    ensures Chain(g, local, us + [v])
  {
  }

  lemma FoundIsReachable(g: Graph, local: string, n: string, v: string)
    requires FoundThrough(g, local, n, v)
    ensures Reachable(g, local, v) && v != local
  {
    var us :| Chain(g, local, us) && us[0] == n && us[|us| - 1] == v;
    var u := if |us| == 1 then local else us[|us| - 2];
    assert Discovers(g, local, u, v);
    var m: nat :| Edge(u, v, m) in g;
    var w :| Walk(g, local, u, w);
    WalkSnoc(g, local, w, Edge(u, v, m));
  }

  // ----- What is recorded ---------------------------------------------------------------------

  lemma NotLater(g: Graph, paths: seq<Triple>, i: int, j: int, p: int, x: string)
    requires 1 <= i < |paths| && FirstPredecessor(g, paths[..i], paths[i].systemID, j)
    requires 0 <= p < |paths| && x == paths[p].systemID && HasEdge(g, x, paths[i].systemID)
    ensures j <= p
  {
  }

  lemma FirstIsNearest(g: Graph, local: string, adjs: seq<Adjacency>, paths: seq<Triple>, i: int, j: int, p: int)
    requires IsSpfResult(g, local, adjs, paths) && 1 <= i < |paths| && 0 <= p < |paths|
    requires FirstPredecessor(g, paths[..i], paths[i].systemID, j) && HasEdge(g, paths[p].systemID, paths[i].systemID)
    ensures NoFarther(g, local, paths[j].systemID, paths[p].systemID)
  {
    NotLater(g, paths, i, j, p, paths[p].systemID);
    assert paths[j].distance <= paths[p].distance;
    forall du, dx | IsDistance(g, local, paths[j].systemID, du) && IsDistance(g, local, paths[p].systemID, dx)
      ensures du <= dx
    {
      DistanceUnique(g, local, paths[j].systemID, du, paths[j].distance);
      DistanceUnique(g, local, paths[p].systemID, dx, paths[p].distance);
    }
  }

  /** The first settled system with a link to another is where that other is met. */
  lemma FirstDiscovers(g: Graph, local: string, adjs: seq<Adjacency>, paths: seq<Triple>, i: int, j: int)
    requires IsSpfResult(g, local, adjs, paths) && 1 <= i < |paths|
    requires FirstPredecessor(g, paths[..i], paths[i].systemID, j)
    ensures Discovers(g, local, paths[j].systemID, paths[i].systemID)
  {
    var u, v := paths[j].systemID, paths[i].systemID;
    assert IsDistance(g, local, u, paths[j].distance);
    forall x | HasEdge(g, x, v) && Reachable(g, local, x) ensures NoFarther(g, local, u, x) {
      var p :| 0 <= p < |paths| && paths[p].systemID == x;
      FirstIsNearest(g, local, adjs, paths, i, j, p);
    }
    if j > 0 {
      assert paths[..i][0].systemID == local;
    }
  }

  /** The next hop recorded for a system is the adjacency with a neighbour it may be met
      through. */
  lemma {:induction false} RecordedHop(g: Graph, local: string, adjs: seq<Adjacency>, paths: seq<Triple>, i: nat)
    returns (us: seq<string>)
    requires IsSpfResult(g, local, adjs, paths) && 1 <= i < |paths|
    ensures Chain(g, local, us) && us[|us| - 1] == paths[i].systemID
    ensures paths[i].adj == AdjacencyTo(adjs, us[0])
    decreases i
  {
    assert HopRule(g, adjs, paths[..i], paths[i]);
    var j :| FirstPredecessor(g, paths[..i], paths[i].systemID, j)
             && paths[i].adj == if j == 0 then AdjacencyTo(adjs, paths[i].systemID) else paths[..i][j].adj;
    FirstDiscovers(g, local, adjs, paths, i, j);
    assert paths[0].systemID == local != paths[i].systemID;
    if j == 0 {
      us := [paths[i].systemID];
    } else {
      var init := RecordedHop(g, local, adjs, paths, j);
      us := init + [paths[i].systemID];
      ChainSnoc(g, local, init, paths[i].systemID);
    }
  }

  /** A link of our own is the adjacency on record for that neighbour. */
  lemma AdjacencyOfLink(local: string, adjs: seq<Adjacency>, lsps: seq<Lsp>, e: Edge) returns (a: Adjacency)
    requires forall l :: l in lsps ==> AllReadable(l.core.tlvs)
    requires NoParallel(local, adjs) && e in GraphOf(local, adjs, lsps) && e.from == local
    ensures a in adjs && a.state == UP && e == Edge(local, NeighborId(a), a.metric)
    ensures AdjacencyTo(adjs, e.to) == Some(a)
  {
    LocalLinks(local, adjs, lsps, e);
    a :| a in adjs && a.state == UP && e == Edge(local, NeighborId(a), a.metric);
    AdjacencyToIs(local, adjs, a);
  }

  /** Without parallel adjacencies we have one link to a neighbour. */
  lemma OnlyLink(local: string, adjs: seq<Adjacency>, lsps: seq<Lsp>, n: string) returns (a: Adjacency)
    requires forall l :: l in lsps ==> AllReadable(l.core.tlvs)
    requires NoParallel(local, adjs) && HasEdge(GraphOf(local, adjs, lsps), local, n)
    ensures a in adjs && a.state == UP && NeighborId(a) == n && AdjacencyTo(adjs, n) == Some(a)
    ensures Edge(local, n, a.metric) in GraphOf(local, adjs, lsps)
    ensures forall m: nat :: Edge(local, n, m) in GraphOf(local, adjs, lsps) ==> m == a.metric
  {
    var g := GraphOf(local, adjs, lsps);
    var k: nat :| Edge(local, n, k) in g;
    a := AdjacencyOfLink(local, adjs, lsps, Edge(local, n, k));
    forall m: nat | Edge(local, n, m) in g ensures m == a.metric {
      var b := AdjacencyOfLink(local, adjs, lsps, Edge(local, n, m));
    }
  }

  lemma HopCorrectOver(g: Graph, local: string, adjs: seq<Adjacency>, a: Adjacency, t: Triple)
    requires a in adjs && a.state == UP && Edge(local, NeighborId(a), a.metric) in g
    requires forall m: nat :: Edge(local, NeighborId(a), m) in g ==> m == a.metric
    requires t.adj == Some(a) && IsDistance(g, local, t.systemID, t.distance)
    ensures HopCorrect(g, adjs, t) <==> StartsShortest(g, local, NeighborId(a), t.systemID)
  {
    var n := NeighborId(a);
    if HopCorrect(g, adjs, t) {
      var rest :| Walk(g, n, t.systemID, rest) && a.metric + Cost(rest) == t.distance;
      RestIsShortest(g, Edge(local, n, a.metric), t.systemID, t.distance, rest);
    }
    if StartsShortest(g, local, n, t.systemID) {
      var m: nat, d: int :| Edge(local, n, m) in g && IsDistance(g, local, t.systemID, d) && IsDistance(g, n, t.systemID, d - m);
      DistanceUnique(g, local, t.systemID, d, t.distance);
    }
  }

  // ----- Exactly when it is right, for any metrics ------------------------------------------------

  /** The entry is right exactly if the neighbour through which the system was met starts
      one of its shortest paths. */
  lemma HopThrough(local: string, adjs: seq<Adjacency>, lsps: seq<Lsp>, paths: seq<Triple>, i: nat) returns (n: string)
    requires forall l :: l in lsps ==> AllReadable(l.core.tlvs)
    requires NoParallel(local, adjs) && IsSpfResult(GraphOf(local, adjs, lsps), local, adjs, paths)
    requires 1 <= i < |paths|
    ensures var g, v := GraphOf(local, adjs, lsps), paths[i].systemID;
      FoundThrough(g, local, n, v) && (HopCorrect(g, adjs, paths[i]) <==> StartsShortest(g, local, n, v))
  {
    var g := GraphOf(local, adjs, lsps);
    var us := RecordedHop(g, local, adjs, paths, i);
    n := us[0];
    var a := OnlyLink(local, adjs, lsps, n);
    assert IsDistance(g, local, paths[i].systemID, paths[i].distance);
    HopCorrectOver(g, local, adjs, a, paths[i]);
  }

  /** With ties in the discovery: right if every neighbour it may be met through starts a
      shortest path, wrong if none does. */
  lemma HopCorrectWithTies(local: string, adjs: seq<Adjacency>, lsps: seq<Lsp>, paths: seq<Triple>, i: nat)
    requires forall l :: l in lsps ==> AllReadable(l.core.tlvs)
    requires NoParallel(local, adjs) && IsSpfResult(GraphOf(local, adjs, lsps), local, adjs, paths)
    requires 1 <= i < |paths|
    ensures var g, v := GraphOf(local, adjs, lsps), paths[i].systemID;
      && ((forall n :: FoundThrough(g, local, n, v) ==> StartsShortest(g, local, n, v)) ==> HopCorrect(g, adjs, paths[i]))
      && ((forall n :: FoundThrough(g, local, n, v) ==> !StartsShortest(g, local, n, v)) ==> !HopCorrect(g, adjs, paths[i]))
  {
    var n := HopThrough(local, adjs, lsps, paths, i);
  }

  /** Without ties: no two systems with a link to a third are its nearest. */
  ghost predicate NoTies(g: Graph, local: string) {
    forall u, x, v :: Discovers(g, local, u, v) && Discovers(g, local, x, v) && v != local ==> u == x
  }

  lemma {:induction false} ChainsAgree(g: Graph, local: string, us: seq<string>, xs: seq<string>)
    requires NoTies(g, local) && Chain(g, local, us) && Chain(g, local, xs) && us[|us| - 1] == xs[|xs| - 1]
    ensures us[0] == xs[0]
    decreases |us|
  {
    if |us| > 1 && |xs| > 1 {
      ChainInit(g, local, us);
      ChainInit(g, local, xs);
      ChainsAgree(g, local, us[..|us| - 1], xs[..|xs| - 1]);
    } else if |us| > 1 {
      ChainInit(g, local, us);
    } else if |xs| > 1 {
      ChainInit(g, local, xs);
    }
  }

  lemma FoundThroughOne(g: Graph, local: string, n: string, m: string, v: string)
    requires NoTies(g, local) && FoundThrough(g, local, n, v) && FoundThrough(g, local, m, v)
    ensures n == m
  {
    var us :| Chain(g, local, us) && us[0] == n && us[|us| - 1] == v;
    var xs :| Chain(g, local, xs) && xs[0] == m && xs[|xs| - 1] == v;
    ChainsAgree(g, local, us, xs);
  }

  /** Without ties the next hop recorded for v is right exactly if the neighbour v is met
      through starts a shortest path to it. */
  lemma HopCorrectIff(local: string, adjs: seq<Adjacency>, lsps: seq<Lsp>, paths: seq<Triple>, i: nat, n: string)
    requires forall l :: l in lsps ==> AllReadable(l.core.tlvs)
    requires NoParallel(local, adjs) && IsSpfResult(GraphOf(local, adjs, lsps), local, adjs, paths)
    requires NoTies(GraphOf(local, adjs, lsps), local)
    requires 1 <= i < |paths| && FoundThrough(GraphOf(local, adjs, lsps), local, n, paths[i].systemID)
    ensures var g := GraphOf(local, adjs, lsps);
      HopCorrect(g, adjs, paths[i]) <==> StartsShortest(g, local, n, paths[i].systemID)
  {
    var m := HopThrough(local, adjs, lsps, paths, i);
    FoundThroughOne(GraphOf(local, adjs, lsps), local, n, m, paths[i].systemID);
  }

  /** Every system is met through a neighbour that starts a shortest path to it. */
  ghost predicate DiscoveryIsShortest(g: Graph, local: string) {
    forall n, v :: FoundThrough(g, local, n, v) ==> StartsShortest(g, local, n, v)
  }

  ghost predicate AllHopsCorrect(g: Graph, adjs: seq<Adjacency>, paths: seq<Triple>) {
    forall i :: 1 <= i < |paths| ==> HopCorrect(g, adjs, paths[i])
  }

  /** The table has no wrong next hop if discovery is shortest, and without ties only then. */
  lemma TableCorrectIff(local: string, adjs: seq<Adjacency>, lsps: seq<Lsp>, paths: seq<Triple>)
    requires forall l :: l in lsps ==> AllReadable(l.core.tlvs)
    requires NoParallel(local, adjs) && IsSpfResult(GraphOf(local, adjs, lsps), local, adjs, paths)
    ensures var g := GraphOf(local, adjs, lsps);
      && (DiscoveryIsShortest(g, local) ==> AllHopsCorrect(g, adjs, paths))
      && (NoTies(g, local) ==> (AllHopsCorrect(g, adjs, paths) <==> DiscoveryIsShortest(g, local)))
  {
    var g := GraphOf(local, adjs, lsps);
    if DiscoveryIsShortest(g, local) {
      forall i | 1 <= i < |paths| ensures HopCorrect(g, adjs, paths[i]) {
        HopCorrectWithTies(local, adjs, lsps, paths, i);
      }
    }
    if NoTies(g, local) && AllHopsCorrect(g, adjs, paths) {
      forall n, v | FoundThrough(g, local, n, v) ensures StartsShortest(g, local, n, v) {
        FoundIsReachable(g, local, n, v);
        var i :| 0 <= i < |paths| && paths[i].systemID == v;
        HopCorrectIff(local, adjs, lsps, paths, i, n);
      }
    }
  }

  // ----- Tight discovery, and equal metrics ---------------------------------------------------

  /** Whoever may meet v first is on a shortest path to it. */
  ghost predicate TightDiscovery(g: Graph, local: string) {
    forall u, v :: Discovers(g, local, u, v) && v != local ==> TightLink(g, local, u, v)
  }

  ghost predicate TightLink(g: Graph, local: string, u: string, v: string) {
    exists m: nat, d: int :: Edge(u, v, m) in g && IsDistance(g, local, u, d) && IsDistance(g, local, v, d + m)
  }

  /** A shortest path to v that starts with our link to n and goes on with w. */
  ghost predicate ShortestVia(g: Graph, local: string, n: string, v: string, m: nat, w: seq<Edge>) {
    Edge(local, n, m) in g && Walk(g, n, v, w) && IsDistance(g, local, v, m + Cost(w))
  }

  lemma TightStart(g: Graph, local: string, n: string) returns (m: nat)
    requires TightLink(g, local, local, n)
    ensures ShortestVia(g, local, n, n, m, [])
  {
    var d: int;
    m, d :| Edge(local, n, m) in g && IsDistance(g, local, local, d) && IsDistance(g, local, n, d + m);
    SelfDistance(g, local);
    DistanceUnique(g, local, local, d, 0);
  }

  lemma TightStep(g: Graph, local: string, n: string, u: string, v: string, m: nat, w: seq<Edge>) returns (w': seq<Edge>)
    requires ShortestVia(g, local, n, u, m, w) && TightLink(g, local, u, v)
    ensures ShortestVia(g, local, n, v, m, w')
  {
    var k: nat, d: int :| Edge(u, v, k) in g && IsDistance(g, local, u, d) && IsDistance(g, local, v, d + k);
    w' := w + [Edge(u, v, k)];
    LongerVia(g, local, n, u, m, w, Edge(u, v, k), d);
  }

  lemma LongerVia(g: Graph, local: string, n: string, u: string, m: nat, w: seq<Edge>, e: Edge, d: int)
    requires ShortestVia(g, local, n, u, m, w) && e in g && e.from == u
    requires IsDistance(g, local, u, d) && IsDistance(g, local, e.to, d + e.metric)
    ensures ShortestVia(g, local, n, e.to, m, w + [e])
  {
    DistanceUnique(g, local, u, d, m + Cost(w));
    WalkSnoc(g, n, w, e);
  }

  lemma {:induction false} TightChain(g: Graph, local: string, us: seq<string>) returns (m: nat, w: seq<Edge>)
    requires TightDiscovery(g, local) && Chain(g, local, us)
    ensures ShortestVia(g, local, us[0], us[|us| - 1], m, w)
    decreases |us|
  {
    var v := us[|us| - 1];
    if |us| == 1 {
      m := TightStart(g, local, v);
      w := [];
    } else {
      ChainInit(g, local, us);
      m, w := TightChain(g, local, us[..|us| - 1]);
      w := TightStep(g, local, us[0], us[|us| - 2], v, m, w);
    }
  }

  /** If every possible discoverer is on a shortest path then, ties or not, discovery is
      shortest. */
  lemma TightIsShortest(g: Graph, local: string)
    requires TightDiscovery(g, local)
    ensures DiscoveryIsShortest(g, local)
  {
    forall n, v | FoundThrough(g, local, n, v) ensures StartsShortest(g, local, n, v) {
      var us :| Chain(g, local, us) && us[0] == n && us[|us| - 1] == v;
      var m, w := TightChain(g, local, us);
      RestIsShortest(g, Edge(local, n, m), v, m + Cost(w), w);
    }
  }

  /** With equal metrics every possible discoverer is on a shortest path. */
  lemma UniformIsTight(g: Graph, local: string, m: nat)
    requires Uniform(g, m)
    ensures TightDiscovery(g, local)
  {
    forall u, v | Discovers(g, local, u, v) && v != local ensures TightLink(g, local, u, v) {
      UniformLink(g, local, m, u, v);
    }
  }

  lemma UniformLink(g: Graph, local: string, m: nat, u: string, v: string)
    requires Uniform(g, m) && Discovers(g, local, u, v) && v != local
    ensures TightLink(g, local, u, v)
  {
    var k: nat :| Edge(u, v, k) in g;
    var du, dv, f := BothEnds(g, local, Edge(u, v, k));
    assert f.metric == m && k == m;
    DiscovererIsNearest(g, local, u, v, f, du, dv - m);
    assert dv == du + k;
  }

  /** The distances of a link's ends, and the last link of a shortest path to its head. */
  lemma BothEnds(g: Graph, local: string, e: Edge) returns (du: int, dv: int, f: Edge)
    requires e in g && Reachable(g, local, e.from) && e.to != local
    ensures IsDistance(g, local, e.from, du) && IsDistance(g, local, e.to, dv) && dv <= du + e.metric
    ensures f in g && f.to == e.to && IsDistance(g, local, f.from, dv - f.metric)
  {
    var w :| Walk(g, local, e.from, w);
    du := DistanceExists(g, local, e.from, w);
    WalkSnoc(g, local, w, e);
    dv := DistanceExists(g, local, e.to, w + [e]);
    EdgeRelaxed(g, local, e, du, dv);
    f := LastEdge(g, local, e.to, dv);
  }

  /** A discoverer of v is no farther than the tail of any link to v. */
  lemma DiscovererIsNearest(g: Graph, local: string, u: string, v: string, f: Edge, du: int, df: int)
    requires Discovers(g, local, u, v) && f in g && f.to == v
    requires IsDistance(g, local, u, du) && IsDistance(g, local, f.from, df)
    ensures du <= df
  {
    if u == local {
      SelfDistance(g, local);
      DistanceUnique(g, local, local, du, 0);
    } else {
      assert f == Edge(f.from, v, f.metric);
      assert HasEdge(g, f.from, v) && Reachable(g, local, f.from);
      assert NoFarther(g, local, u, f.from);
    }
  }

  /** Equal metrics: every recorded next hop starts a shortest path, and the neighbour
      it names is one metric closer. */
  lemma UniformNextHops(local: string, adjs: seq<Adjacency>, lsps: seq<Lsp>, paths: seq<Triple>, m: nat, i: int)
    requires forall l :: l in lsps ==> AllReadable(l.core.tlvs)
    requires NoParallel(local, adjs) && IsSpfResult(GraphOf(local, adjs, lsps), local, adjs, paths)
    requires Uniform(GraphOf(local, adjs, lsps), m) && 1 <= i < |paths|
    ensures var g, t := GraphOf(local, adjs, lsps), paths[i];
      && HopCorrect(g, adjs, t) && t.adj.value.metric == m
      && IsDistance(g, NeighborId(t.adj.value), t.systemID, t.distance - m)
  {
    var g, t := GraphOf(local, adjs, lsps), paths[i];
    UniformIsTight(g, local, m);
    TightIsShortest(g, local);
    HopCorrectWithTies(local, adjs, lsps, paths, i);
    OneMetricCloser(local, adjs, lsps, m, t);
  }

  lemma OneMetricCloser(local: string, adjs: seq<Adjacency>, lsps: seq<Lsp>, m: nat, t: Triple)
    requires forall l :: l in lsps ==> AllReadable(l.core.tlvs)
    requires Uniform(GraphOf(local, adjs, lsps), m) && HopCorrect(GraphOf(local, adjs, lsps), adjs, t)
    requires IsDistance(GraphOf(local, adjs, lsps), local, t.systemID, t.distance)
    ensures t.adj.value.metric == m
    ensures IsDistance(GraphOf(local, adjs, lsps), NeighborId(t.adj.value), t.systemID, t.distance - m)
  {
    var g, a := GraphOf(local, adjs, lsps), t.adj.value;
    var e := Edge(local, NeighborId(a), a.metric);
    assert e in g;
    var rest :| Walk(g, NeighborId(a), t.systemID, rest) && a.metric + Cost(rest) == t.distance;
    RestIsShortest(g, e, t.systemID, t.distance, rest);
  }
}
