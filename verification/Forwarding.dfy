/** End to end: handshake, flooding and shortest paths together give loop-free
    forwarding, also where other adjacencies are still half open. */
module Forwarding {
  import opened Bytes
  import opened Sets
  import opened Wrappers
  import opened Lsps
  import opened Interfaces
  import opened Graphs
  import opened Spf
  import opened Decision
  import opened NextHop
  import opened Nodes
  import opened Network
  import opened NodeSteps
  import opened Safety
  import opened Convergence
  import opened Topology
  import SystemId

  // ----- What each router feeds to SPF --------------------------------------------------------

  ghost predicate AllLists(s: Net, lsps: seq<seq<Lsp>>) {
    |lsps| == |s.nodes| && forall a :: 0 <= a < |s.nodes| ==> Lists(s.nodes[a].db, lsps[a])
  }

  lemma ListedIsOwned(peer: Cabling, s: Net, a: nat, lsps: seq<Lsp>, l: Lsp)
    requires LogOk(s) && NodesOk(s) && a < |s.nodes| && Lists(s.nodes[a].db, lsps) && l in lsps
    ensures Owned(s, l)
  {
    assert NodeOk(s, s.nodes[a]);
  }

  lemma ListedAreReadable(peer: Cabling, s: Net, a: nat, lsps: seq<Lsp>)
    requires LogOk(s) && NodesOk(s) && a < |s.nodes| && Lists(s.nodes[a].db, lsps)
    ensures forall l :: l in lsps ==> AllReadable(l.core.tlvs)
  {
    forall l | l in lsps ensures AllReadable(l.core.tlvs) {
      ListedIsOwned(peer, s, a, lsps, l);
    }
  }

  /** The graph router a computes on. */
  ghost function GraphAt(s: Net, a: nat, lsps: seq<Lsp>): Graph
    requires a < |s.nodes| && forall l :: l in lsps ==> AllReadable(l.core.tlvs)
  {
    GraphFor(s.nodes[a], lsps)
  }

  // ----- The conditions under which SPF runs hold in every reachable state ----------------------

  lemma NamesInjective(peer: Cabling, s: Net, a: nat, b: nat)
    requires Cabled(peer, s) && a < |s.nodes| && b < |s.nodes| && Name(s, a) == Name(s, b)
    ensures a == b
  {
    SystemId.TextInjective(s.nodes[a].sid, s.nodes[b].sid);
  }

  /** An LSP of a router's name is the one stored under its key. */
  lemma SystemOfOwned(peer: Cabling, s: Net, l: Lsp) returns (o: nat)
    requires Owned(s, l)
    ensures o < |s.nodes| && l.key == OwnKey(s.nodes[o]) && SystemOf(l) == Name(s, o)
    ensures 1 <= SequenceNumber(l) <= s.nodes[o].sequenceNumber
  {
    o :| 0 <= o < |s.nodes| && OwnKey(s.nodes[o]) == l.key
         && 1 <= SequenceNumber(l) <= s.nodes[o].sequenceNumber;
    Uint64Injective(l.lspID, SystemId.LspId(s.nodes[o].sid));
    assert l.lspID[..6] == s.nodes[o].sid;
  }

  lemma OwnLinkIndex(local: string, adjs: seq<Adjacency>, lsps: seq<Lsp>, e: Edge) returns (i: nat)
    requires forall l :: l in lsps ==> AllReadable(l.core.tlvs)
    requires e in GraphOf(local, adjs, lsps) && e.from == local
    ensures i < |adjs| && adjs[i].state == UP && e == Edge(local, NeighborId(adjs[i]), adjs[i].metric)
  {
    LocalLinks(local, adjs, lsps, e);
    var x :| x in adjs && x.state == UP && e == Edge(local, NeighborId(x), x.metric);
    i :| 0 <= i < |adjs| && adjs[i] == x;
  }

  lemma LinkFromAdj(local: string, adjs: seq<Adjacency>, lsps: seq<Lsp>, i: nat)
    requires forall l :: l in lsps ==> AllReadable(l.core.tlvs)
    requires i < |adjs| && adjs[i].state == UP
    ensures Edge(local, NeighborId(adjs[i]), adjs[i].metric) in GraphOf(local, adjs, lsps)
  {
    assert adjs[i] in adjs;
  }

  lemma LinkFromLsp(local: string, adjs: seq<Adjacency>, lsps: seq<Lsp>, l: Lsp, n: Neighbor)
    requires forall l :: l in lsps ==> AllReadable(l.core.tlvs)
    requires l in lsps && SystemOf(l) != local && n in LookupNeighbors(l.core.tlvs)
    ensures Edge(SystemOf(l), n.systemID, n.metric) in GraphOf(local, adjs, lsps)
  {
  }

  /** A link of our own in the graph is an UP port; it leads to the router plugged in there. */
  lemma OwnLinkIsPort(peer: Cabling, s: Net, a: nat, lsps: seq<Lsp>, e: Edge) returns (p: Port)
    requires AdjsOk(peer, s) && a < |s.nodes|
    requires forall l :: l in lsps ==> AllReadable(l.core.tlvs)
    requires e in GraphAt(s, a, lsps) && e.from == Name(s, a)
    ensures p.node == a && UpEdge(peer, s, p, e)
  {
    var i := OwnLinkIndex(Name(s, a), Adjs(s.nodes[a]), lsps, e);
    p := Port(a, i);
    assert AdjOk(peer, s, p);
  }

  /** e is the directed link of the UP port p. */
  ghost predicate UpEdge(peer: Cabling, s: Net, p: Port, e: Edge) {
    UpPort(peer, s, p) && e == Edge(Name(s, p.node), Name(s, peer[p].node), 10)
  }

  /** In every reachable state, every link in a router's graph is a port that is UP now. */
  lemma LinkIsUpPort(peer: Cabling, s: Net, a: nat, lsps: seq<Lsp>, e: Edge) returns (p: Port)
    requires LogOk(s) && NodesOk(s) && AdjsOk(peer, s) && a < |s.nodes| && Lists(s.nodes[a].db, lsps)
    requires forall l :: l in lsps ==> AllReadable(l.core.tlvs)
    requires e in GraphAt(s, a, lsps)
    ensures UpEdge(peer, s, p, e)
  {
    if e.from == Name(s, a) {
      p := OwnLinkIsPort(peer, s, a, lsps, e);
    } else {
      LinkIsListed(Name(s, a), Adjs(s.nodes[a]), lsps, e);
      var l :| l in lsps && SystemOf(l) == e.from && AsNeighbor(e) in LookupNeighbors(l.core.tlvs);
      ListedIsOwned(peer, s, a, lsps, l);
      p := ListedPort(peer, s, l, AsNeighbor(e));
    }
  }

  lemma ListedPort(peer: Cabling, s: Net, l: Lsp, n: Neighbor) returns (p: Port)
    requires AdjsOk(peer, s) && Owned(s, l) && n in LookupNeighbors(l.core.tlvs)
    ensures UpEdge(peer, s, p, Edge(SystemOf(l), n.systemID, n.metric))
  {
    var o := SystemOfOwned(peer, s, l);
    assert HasUp(s, l.key, n.systemID);
    p :| IsPort(s, p) && OwnKey(s.nodes[p.node]) == l.key
         && IntfAt(s, p).adj.state == UP && NeighborId(IntfAt(s, p).adj) == n.systemID;
    OwnKeyInjective(s.nodes[p.node], s.nodes[o]);
    assert AdjOk(peer, s, p);
  }

  ghost predicate IsName(s: Net, id: string) {
    exists a :: 0 <= a < |s.nodes| && Name(s, a) == id
  }

  /** All metrics are 10 and the systems are the routers, so no distance can wrap. */
  lemma SpfConditionsHold(peer: Cabling, s: Net, a: nat, lsps: seq<Lsp>)
    requires LogOk(s) && NodesOk(s) && AdjsOk(peer, s) && a < |s.nodes| && Lists(s.nodes[a].db, lsps)
    requires forall l :: l in lsps ==> AllReadable(l.core.tlvs)
    ensures Uniform(GraphAt(s, a, lsps), 10) && MetricsAtMost(GraphAt(s, a, lsps), 10)
    ensures |Systems(GraphAt(s, a, lsps), Name(s, a))| <= |s.nodes|
  {
    var g := GraphAt(s, a, lsps);
    forall e | e in g ensures e.metric == 10 && IsName(s, e.to) {
      var p := LinkIsUpPort(peer, s, a, lsps, e);
      assert Name(s, peer[p].node) == e.to;
    }
    forall v | v in Systems(g, Name(s, a)) ensures IsName(s, v) {
    }
    NamesCount(s, Systems(g, Name(s, a)), |s.nodes|);
  }

  /** In every reachable state of a network without parallel links, every router meets the
      conditions under which computeSPF is exact. */
  lemma SpfMayRun(peer: Cabling, s: Net, a: nat, lsps: seq<Lsp>)
    requires Inv(peer, s) && SingleLinks(peer, s) && a < |s.nodes| && Lists(s.nodes[a].db, lsps)
    requires (|s.nodes| - 1) * 10 < MAX_UINT32
    ensures DbOk(s.nodes[a].db) && MaySpf(s.nodes[a], lsps, 10)
  {
    ListedAreReadable(peer, s, a, lsps);
    SpfConditionsHold(peer, s, a, lsps);
    NoParallelAt(peer, s, a);
    ReachableDbOk(peer, s, a);
  }

  lemma ReachableDbOk(peer: Cabling, s: Net, a: nat)
    requires LogOk(s) && NodesOk(s) && a < |s.nodes|
    ensures DbOk(s.nodes[a].db)
  {
    assert NodeOk(s, s.nodes[a]);
    forall k | k in s.nodes[a].db
      ensures var l := s.nodes[a].db[k];
        l.key == k && WellKeyed(l) && l.lspID[6..] == [0, 0] && AllReadable(l.core.tlvs)
    {
      var l := s.nodes[a].db[k];
      assert Owned(s, l);
      var o := SystemOfOwned(peer, s, l);
      Uint64Injective(l.lspID, SystemId.LspId(s.nodes[o].sid));
    }
  }

  lemma {:induction false} NamesCount(s: Net, vs: set<string>, n: nat)
    requires n <= |s.nodes| && forall v :: v in vs ==> exists a :: 0 <= a < n && Name(s, a) == v
    ensures |vs| <= n
  {
    if n == 0 {
      assert vs == {};
    } else {
      var rest := vs - {Name(s, n - 1)};
      forall v | v in rest ensures exists a :: 0 <= a < n - 1 && Name(s, a) == v {
        var a :| 0 <= a < n && Name(s, a) == v;
      }
      NamesCount(s, rest, n - 1);
      assert vs <= rest + {Name(s, n - 1)};
      assert |vs| <= |rest + {Name(s, n - 1)}| by { CardMonotone(vs, rest + {Name(s, n - 1)}); }
    }
  }

  // ----- Paths of UP ports --------------------------------------------------------------------

  /** Ports UP at their near ends, end to end from router a to router b. */
  ghost predicate Path(peer: Cabling, s: Net, a: nat, b: nat, ps: seq<Port>)
    decreases |ps|
  {
    if ps == [] then a == b && a < |s.nodes|
    else ps[0].node == a && UpPort(peer, s, ps[0]) && Path(peer, s, peer[ps[0]].node, b, ps[1..])
  }

  ghost predicate Reaches(peer: Cabling, s: Net, a: nat, b: nat) {
    exists ps :: Path(peer, s, a, b, ps)
  }

  /** Each reaches the other, for instance over links UP at both ends. */
  ghost predicate Joined(peer: Cabling, s: Net, a: nat, b: nat) {
    Reaches(peer, s, a, b) && Reaches(peer, s, b, a)
  }

  lemma ReachesSelf(peer: Cabling, s: Net, a: nat)
    requires a < |s.nodes|
    ensures Reaches(peer, s, a, a)
  {
    assert Path(peer, s, a, a, []);
  }

  lemma ReachesFrom(peer: Cabling, s: Net, p: Port, d: nat)
    requires UpPort(peer, s, p) && Reaches(peer, s, peer[p].node, d)
    ensures Reaches(peer, s, p.node, d)
  {
    var ps :| Path(peer, s, peer[p].node, d, ps);
    assert ([p] + ps)[1..] == ps;
    assert Path(peer, s, p.node, d, [p] + ps);
  }

  lemma {:induction false} ReachesThen(peer: Cabling, s: Net, a: nat, b: nat, d: nat, ps: seq<Port>)
    requires Path(peer, s, a, b, ps) && Reaches(peer, s, b, d)
    ensures Reaches(peer, s, a, d)
    decreases |ps|
  {
    if ps != [] {
      ReachesThen(peer, s, peer[ps[0]].node, b, d, ps[1..]);
      ReachesFrom(peer, s, ps[0], d);
    }
  }

  /** Routers joined by links UP at both ends reach each other. */
  lemma {:induction false} ChainJoins(peer: Cabling, s: Net, a: nat, b: nat, ps: seq<Port>)
    requires Cabled(peer, s) && UpChain(peer, s, a, b, ps)
    ensures Joined(peer, s, a, b)
    decreases |ps|
  {
    ReachesSelf(peer, s, a);
    if ps != [] {
      var p := ps[0];
      ChainJoins(peer, s, peer[p].node, b, ps[1..]);
      ReachesFrom(peer, s, p, b);
      ReachesFrom(peer, s, peer[p], a);
      var qs :| Path(peer, s, b, peer[p].node, qs);
      ReachesThen(peer, s, b, peer[p].node, a, qs);
    }
  }

  lemma {:induction false} UpIdsComplete(intfs: seq<Intf>, i: nat)
    requires i < |intfs| && intfs[i].adj.state == UP
    ensures intfs[i].adj.neighborSystemID in UpIds(intfs)
  {
    var init := intfs[..|intfs| - 1];
    if i < |init| {
      UpIdsComplete(init, i);
    }
  }

  /** A router with an UP port has generated an LSP. */
  lemma HasGenerated(peer: Cabling, s: Net, p: Port)
    requires NodesOk(s) && UpPort(peer, s, p)
    ensures s.nodes[p.node].sequenceNumber > 0
  {
    assert NodeOk(s, s.nodes[p.node]);
    UpIdsComplete(s.nodes[p.node].intfs, p.intf);
  }

  // ----- Who holds whose LSP --------------------------------------------------------------------

  /** Router b holds the present LSP of router c. */
  ghost predicate Holds(s: Net, b: nat, c: nat) {
    && b < |s.nodes| && c < |s.nodes|
    && OwnKey(s.nodes[c]) in s.nodes[b].db && OwnKey(s.nodes[c]) in s.nodes[c].db
    && s.nodes[b].db[OwnKey(s.nodes[c])] == s.nodes[c].db[OwnKey(s.nodes[c])]
  }

  lemma HasIsHolds(peer: Cabling, s: Net, b: nat, c: nat)
    requires Cabled(peer, s) && LogOk(s) && NodesOk(s) && b < |s.nodes| && c < |s.nodes|
    requires s.nodes[c].sequenceNumber > 0 && Has(s.nodes[b], OwnKey(s.nodes[c]), s.nodes[c].sequenceNumber)
    ensures Holds(s, b, c)
  {
    var k := OwnKey(s.nodes[c]);
    StoredIsLogged(s, b, k);
    OwnIsPresent(s, c);
    StoredIsLogged(s, c, k);
    OlderThanNew(s, c, s.nodes[b].db[k]);
    SameNumberSameLsp(s.log, s.nodes[b].db[k], s.nodes[c].db[k]);
  }

  /** When flooding is quiet, what router a stores has gone down every path from a. */
  lemma {:induction false} Pushed(peer: Cabling, s: Net, a: nat, b: nat, ps: seq<Port>, k: nat)
    requires Cabled(peer, s) && AllFlooded(peer, s) && Quiescent(s) && Path(peer, s, a, b, ps)
    requires a < |s.nodes| && b < |s.nodes| && k in s.nodes[a].db
    ensures Has(s.nodes[b], k, SequenceNumber(s.nodes[a].db[k]))
    decreases |ps|
  {
    if ps != [] {
      PeerHasIt(peer, s, ps[0], k);
      Pushed(peer, s, peer[ps[0]].node, b, ps[1..], k);
    }
  }

  /** Router b holds the present LSP of every router that reaches d. */
  ghost predicate Informed(peer: Cabling, s: Net, b: nat, d: nat) {
    b < |s.nodes| && forall c :: 0 <= c < |s.nodes| && s.nodes[c].sequenceNumber > 0 && Reaches(peer, s, c, d) ==>
      Holds(s, b, c)
  }

  /** Whoever d reaches is informed about the ways to d, */
  lemma ReachedIsInformed(peer: Cabling, s: Net, d: nat, b: nat)
    requires Inv(peer, s) && Quiescent(s) && b < |s.nodes| && Reaches(peer, s, d, b)
    ensures Informed(peer, s, b, d)
  {
    forall c | 0 <= c < |s.nodes| && s.nodes[c].sequenceNumber > 0 && Reaches(peer, s, c, d) ensures Holds(s, b, c) {
      var ps :| Path(peer, s, c, d, ps);
      ReachesThen(peer, s, c, d, b, ps);
      ReachesIsHolds(peer, s, c, b);
    }
  }

  lemma ReachesIsHolds(peer: Cabling, s: Net, c: nat, b: nat)
    requires Inv(peer, s) && Quiescent(s) && c < |s.nodes| && b < |s.nodes|
    requires s.nodes[c].sequenceNumber > 0 && Reaches(peer, s, c, b)
    ensures Holds(s, b, c)
  {
    var ps :| Path(peer, s, c, b, ps);
    OwnIsPresent(s, c);
    Pushed(peer, s, c, b, ps, OwnKey(s.nodes[c]));
    HasIsHolds(peer, s, b, c);
  }

  /** and so is whoever an informed router has an UP port to. */
  lemma InformedOnwards(peer: Cabling, s: Net, p: Port, d: nat)
    requires Inv(peer, s) && Quiescent(s) && UpPort(peer, s, p) && Informed(peer, s, p.node, d)
    ensures Informed(peer, s, peer[p].node, d)
  {
    forall c | 0 <= c < |s.nodes| && s.nodes[c].sequenceNumber > 0 && Reaches(peer, s, c, d)
      ensures Holds(s, peer[p].node, c)
    {
      HoldsOnwards(peer, s, p, c);
    }
  }

  lemma HoldsOnwards(peer: Cabling, s: Net, p: Port, c: nat)
    requires Inv(peer, s) && Quiescent(s) && UpPort(peer, s, p)
    requires Holds(s, p.node, c) && s.nodes[c].sequenceNumber > 0
    ensures Holds(s, peer[p].node, c)
  {
    OwnIsPresent(s, c);
    PeerHasIt(peer, s, p, OwnKey(s.nodes[c]));
    HasIsHolds(peer, s, peer[p].node, c);
  }

  // ----- One graph for everybody --------------------------------------------------------------

  /** The ports that are UP, as links. */
  ghost function UpGraph(peer: Cabling, s: Net): Graph {
    set p | p in peer && UpPort(peer, s, p) :: Edge(Name(s, p.node), Name(s, peer[p].node), 10)
  }

  lemma PortIsAdvertised(peer: Cabling, s: Net, p: Port)
    requires IsPort(s, p) && AdjOk(peer, s, p) && IntfAt(s, p).adj.state == UP
    ensures Neighbor(Name(s, peer[p].node), 10) in Advertised(UpIds(s.nodes[p.node].intfs))
  {
    var ids := UpIds(s.nodes[p.node].intfs);
    UpIdsComplete(s.nodes[p.node].intfs, p.intf);
    var i :| 0 <= i < |ids| && ids[i] == IntfAt(s, p).adj.neighborSystemID;
    assert Advertised(ids)[i] == Neighbor(Name(s, peer[p].node), 10);
  }

  /** The LSP that router b holds for another router c lists c's UP adjacencies. */
  lemma PresentLsp(peer: Cabling, s: Net, b: nat, c: nat) returns (l: Lsp)
    requires Inv(peer, s) && Holds(s, b, c)
    ensures l == s.nodes[b].db[OwnKey(s.nodes[c])] && SystemOf(l) == Name(s, c)
    ensures AllReadable(l.core.tlvs) && LookupNeighbors(l.core.tlvs) == Advertised(UpIds(s.nodes[c].intfs))
  {
    assert NodeOk(s, s.nodes[c]);
    l := s.nodes[c].db[OwnKey(s.nodes[c])];
    assert Owned(s, l);
    var o := SystemOfOwned(peer, s, l);
    OwnKeyInjective(s.nodes[o], s.nodes[c]);
    assert WithinLimits(peer, s, c);
    UpIdsFit(peer, s, c);
    LocalTlvsListAdjacencies(AllRoutes(s.nodes[c].intfs), UpIds(s.nodes[c].intfs));
  }

  /** An UP port is a link in the graph of its own router and of every router that holds
      that router's present LSP. */
  lemma UpPortIsLink(peer: Cabling, s: Net, b: nat, lsps: seq<Lsp>, p: Port)
    requires Inv(peer, s) && b < |s.nodes| && UpPort(peer, s, p) && Holds(s, b, p.node)
    requires Lists(s.nodes[b].db, lsps) && forall l :: l in lsps ==> AllReadable(l.core.tlvs)
    ensures Edge(Name(s, p.node), Name(s, peer[p].node), 10) in GraphAt(s, b, lsps)
  {
    assert AdjOk(peer, s, p);
    if b == p.node {
      LinkFromAdj(Name(s, b), Adjs(s.nodes[b]), lsps, p.intf);
    } else {
      var l := PresentLsp(peer, s, b, p.node);
      RemotePortIsLink(peer, s, b, lsps, p, l);
    }
  }

  lemma RemotePortIsLink(peer: Cabling, s: Net, b: nat, lsps: seq<Lsp>, p: Port, l: Lsp)
    requires Cabled(peer, s) && b < |s.nodes| && UpPort(peer, s, p) && AdjOk(peer, s, p) && b != p.node
    requires l in lsps && forall l :: l in lsps ==> AllReadable(l.core.tlvs)
    requires SystemOf(l) == Name(s, p.node)
    requires LookupNeighbors(l.core.tlvs) == Advertised(UpIds(s.nodes[p.node].intfs))
    ensures Edge(Name(s, p.node), Name(s, peer[p].node), 10) in GraphAt(s, b, lsps)
  {
    if Name(s, b) == Name(s, p.node) { NamesInjective(peer, s, b, p.node); }
    PortIsAdvertised(peer, s, p);
    LinkFromLsp(Name(s, b), Adjs(s.nodes[b]), lsps, l, Neighbor(Name(s, peer[p].node), 10));
  }

  /** Each router's own listing of its database. */
  ghost predicate Views(s: Net, ls: seq<seq<Lsp>>) {
    && AllLists(s, ls)
    && forall a :: 0 <= a < |ls| ==> forall l :: l in ls[a] ==> AllReadable(l.core.tlvs)
  }

  ghost function G(s: Net, ls: seq<seq<Lsp>>, a: nat): Graph
    requires Views(s, ls) && a < |s.nodes|
  {
    GraphAt(s, a, ls[a])
  }

  lemma GraphInUpGraph(peer: Cabling, s: Net, ls: seq<seq<Lsp>>, b: nat)
    requires Inv(peer, s) && Views(s, ls) && b < |s.nodes|
    ensures G(s, ls, b) <= UpGraph(peer, s)
  {
    forall e | e in G(s, ls, b) ensures e in UpGraph(peer, s) {
      var p := LinkIsUpPort(peer, s, b, ls[b], e);
    }
  }

  lemma {:induction false} WalkReaches(peer: Cabling, s: Net, c: nat, d: nat, w: seq<Edge>)
    requires Cabled(peer, s) && c < |s.nodes| && d < |s.nodes|
    requires Walk(UpGraph(peer, s), Name(s, c), Name(s, d), w)
    ensures Reaches(peer, s, c, d)
    decreases |w|
  {
    if w == [] {
      NamesInjective(peer, s, c, d);
      ReachesSelf(peer, s, d);
    } else {
      WalkTail(UpGraph(peer, s), Name(s, c), Name(s, d), w);
      var p := PortBehind(peer, s, c, w[0]);
      WalkReaches(peer, s, peer[p].node, d, w[1..]);
      ReachesFrom(peer, s, p, d);
    }
  }

  /** A router informed about d knows every UP port on the way to d. */
  lemma LinkIsKnown(peer: Cabling, s: Net, ls: seq<seq<Lsp>>, b: nat, d: nat, e: Edge)
    requires Inv(peer, s) && Views(s, ls) && b < |s.nodes| && d < |s.nodes| && Informed(peer, s, b, d)
    requires e in UpGraph(peer, s) && Reachable(UpGraph(peer, s), e.to, Name(s, d))
    ensures e in G(s, ls, b)
  {
    var p :| p in peer && UpPort(peer, s, p) && e == Edge(Name(s, p.node), Name(s, peer[p].node), 10);
    var w :| Walk(UpGraph(peer, s), e.to, Name(s, d), w);
    WalkReaches(peer, s, peer[p].node, d, w);
    ReachesFrom(peer, s, p, d);
    HasGenerated(peer, s, p);
    UpPortIsLink(peer, s, b, ls[b], p);
  }

  /** A walk over UP ports to d is a walk in the graph of a router informed about d. */
  lemma WalkIsKnown(peer: Cabling, s: Net, ls: seq<seq<Lsp>>, b: nat, src: string, d: nat, w: seq<Edge>)
    requires Inv(peer, s) && Views(s, ls) && b < |s.nodes| && d < |s.nodes|
    requires Informed(peer, s, b, d) && Walk(UpGraph(peer, s), src, Name(s, d), w)
    ensures Walk(G(s, ls, b), src, Name(s, d), w)
  {
    forall e | e in UpGraph(peer, s) && Reachable(UpGraph(peer, s), e.to, Name(s, d)) ensures e in G(s, ls, b) {
      LinkIsKnown(peer, s, ls, b, d, e);
    }
    WalkOnTheWay(UpGraph(peer, s), G(s, ls, b), src, Name(s, d), w);
  }

  lemma PortBehind(peer: Cabling, s: Net, c: nat, e: Edge) returns (p: Port)
    requires Cabled(peer, s) && c < |s.nodes| && e in UpGraph(peer, s) && e.from == Name(s, c)
    ensures p.node == c && UpEdge(peer, s, p, e)
  {
    p :| p in peer && UpPort(peer, s, p) && e == Edge(Name(s, p.node), Name(s, peer[p].node), 10);
    NamesInjective(peer, s, p.node, c);
  }

  /** A router informed about d measures the distances to d over all ports that are UP. */
  lemma DistancesAgree(peer: Cabling, s: Net, ls: seq<seq<Lsp>>, b: nat, c: nat, d: nat, v: int)
    requires Inv(peer, s) && Views(s, ls) && b < |s.nodes| && c < |s.nodes| && d < |s.nodes|
    requires Informed(peer, s, b, d)
    ensures IsDistance(G(s, ls, b), Name(s, c), Name(s, d), v) <==>
            IsDistance(UpGraph(peer, s), Name(s, c), Name(s, d), v)
  {
    var g, u := G(s, ls, b), UpGraph(peer, s);
    GraphInUpGraph(peer, s, ls, b);
    forall w ensures Walk(g, Name(s, c), Name(s, d), w) <==> Walk(u, Name(s, c), Name(s, d), w) {
      if Walk(g, Name(s, c), Name(s, d), w) {
        WalkInLarger(g, u, Name(s, c), Name(s, d), w);
      }
      if Walk(u, Name(s, c), Name(s, d), w) {
        WalkIsKnown(peer, s, ls, b, Name(s, c), d, w);
      }
    }
    SameWalksSameDistance(g, u, Name(s, c), Name(s, d), v);
  }

  lemma {:induction false} PathIsWalk(peer: Cabling, s: Net, a: nat, d: nat, ps: seq<Port>) returns (w: seq<Edge>)
    requires Path(peer, s, a, d, ps) && a < |s.nodes| && d < |s.nodes|
    ensures Walk(UpGraph(peer, s), Name(s, a), Name(s, d), w)
    decreases |ps|
  {
    if ps == [] {
      w := [];
    } else {
      var p := ps[0];
      var rest := PathIsWalk(peer, s, peer[p].node, d, ps[1..]);
      var e := Edge(Name(s, a), Name(s, peer[p].node), 10);
      WalkCons(UpGraph(peer, s), e, Name(s, d), rest);
      w := [e] + rest;
    }
  }

  // ----- Forwarding ------------------------------------------------------------------------------

  /** At most one link between two routers: the assumption stated in computeSPF. */
  ghost predicate SingleLinks(peer: Cabling, s: Net) {
    forall p, q :: p in peer && q in peer && p != q && p.node == q.node ==> peer[p].node != peer[q].node
  }

  lemma NoParallelAt(peer: Cabling, s: Net, a: nat)
    requires Cabled(peer, s) && AdjsOk(peer, s) && SingleLinks(peer, s) && a < |s.nodes|
    ensures NoParallel(Name(s, a), Adjs(s.nodes[a]))
  {
    var adjs := Adjs(s.nodes[a]);
    forall i | 0 <= i < |adjs| && adjs[i].state == UP
      ensures Port(a, i) in peer && IsPort(s, peer[Port(a, i)]) && NeighborId(adjs[i]) == Name(s, peer[Port(a, i)].node)
      ensures NeighborId(adjs[i]) != Name(s, a)
    {
      assert AdjOk(peer, s, Port(a, i));
      if NeighborId(adjs[i]) == Name(s, a) { NamesInjective(peer, s, peer[Port(a, i)].node, a); }
    }
    forall i, j | 0 <= i < j < |adjs| && adjs[i].state == UP && adjs[j].state == UP
      ensures NeighborId(adjs[i]) != NeighborId(adjs[j])
    {
      if NeighborId(adjs[i]) == NeighborId(adjs[j]) {
        NamesInjective(peer, s, peer[Port(a, i)].node, peer[Port(a, j)].node);
      }
    }
  }

  /** Every router that has an LSP of its own has run SPF on its present database; the
      others get no table (TableIffGenerated). */
  ghost predicate FreshSpf(s: Net, ls: seq<seq<Lsp>>, spf: seq<seq<Triple>>) {
    Views(s, ls) && |spf| == |s.nodes| && forall a :: 0 <= a < |s.nodes| && s.nodes[a].sequenceNumber > 0 ==>
      IsSpfResult(G(s, ls, a), Name(s, a), Adjs(s.nodes[a]), spf[a])
  }

  /** computeSPF finds the router's own LSP, and so gives a table, exactly once the router
      has generated one. */
  lemma TableIffGenerated(peer: Cabling, s: Net, a: nat, lsps: seq<Lsp>)
    requires Inv(peer, s) && a < |s.nodes| && Lists(s.nodes[a].db, lsps)
    ensures (exists i :: 0 <= i < |lsps| && SystemOf(lsps[i]) == Name(s, a)) <==> s.nodes[a].sequenceNumber > 0
  {
    assert NodeOk(s, s.nodes[a]);
    if s.nodes[a].sequenceNumber > 0 {
      var l := s.nodes[a].db[OwnKey(s.nodes[a])];
      assert Owned(s, l) && l in lsps;
      var o := SystemOfOwned(peer, s, l);
      OwnKeyInjective(s.nodes[o], s.nodes[a]);
    }
    if i :| 0 <= i < |lsps| && SystemOf(lsps[i]) == Name(s, a) {
      SameSystemSameLsp(peer, s, a, a, lsps, lsps[i]);
    }
  }

  lemma SameSystemSameLsp(peer: Cabling, s: Net, b: nat, c: nat, lsps: seq<Lsp>, m: Lsp)
    requires Cabled(peer, s) && LogOk(s) && NodesOk(s) && b < |s.nodes| && c < |s.nodes|
    requires Lists(s.nodes[b].db, lsps) && m in lsps && SystemOf(m) == Name(s, c)
    ensures OwnKey(s.nodes[c]) in s.nodes[b].db && m == s.nodes[b].db[OwnKey(s.nodes[c])]
  {
    ListedIsOwned(peer, s, b, lsps, m);
    var o := SystemOfOwned(peer, s, m);
    NamesInjective(peer, s, o, c);
  }

  /** Router a, having recorded entry i for router d, forwards out of port p. */
  ghost predicate ForwardsVia(s: Net, paths: seq<Triple>, d: nat, p: Port) {
    && d < |s.nodes| && IsPort(s, p)
    && exists i :: 0 <= i < |paths| && paths[i].systemID == Name(s, d) && paths[i].adj == Some(IntfAt(s, p).adj)
  }

  /** Router a records d at distance v. */
  ghost predicate Records(s: Net, paths: seq<Triple>, d: nat, v: int) {
    d < |s.nodes| && exists i :: 0 <= i < |paths| && paths[i].systemID == Name(s, d) && paths[i].distance == v
  }

  /** The recorded next hop is one of our UP ports, and its far end is one metric closer
      to the destination in our own graph. */
  lemma HopPort(peer: Cabling, s: Net, a: nat, lsps: seq<Lsp>, paths: seq<Triple>, i: nat) returns (p: Port)
    requires Cabled(peer, s) && LogOk(s) && NodesOk(s) && AdjsOk(peer, s) && SingleLinks(peer, s)
    requires a < |s.nodes| && Lists(s.nodes[a].db, lsps) && forall l :: l in lsps ==> AllReadable(l.core.tlvs)
    requires IsSpfResult(GraphAt(s, a, lsps), Name(s, a), Adjs(s.nodes[a]), paths) && 1 <= i < |paths|
    ensures p.node == a && IsPort(s, p) && p in peer && IsPort(s, peer[p]) && IntfAt(s, p).adj.state == UP
    ensures paths[i].adj == Some(IntfAt(s, p).adj)
    ensures IsDistance(GraphAt(s, a, lsps), Name(s, peer[p].node), paths[i].systemID, paths[i].distance - 10)
  {
    NoParallelAt(peer, s, a);
    SpfConditionsHold(peer, s, a, lsps);
    UniformNextHops(Name(s, a), Adjs(s.nodes[a]), lsps, paths, 10, i);
    p := PortOf(peer, s, a, paths[i].adj.value);
  }

  lemma PortOf(peer: Cabling, s: Net, a: nat, x: Adjacency) returns (p: Port)
    requires a < |s.nodes| && AdjsOk(peer, s) && x in Adjs(s.nodes[a]) && x.state == UP
    ensures p.node == a && IsPort(s, p) && p in peer && IsPort(s, peer[p])
    ensures IntfAt(s, p).adj == x && NeighborId(x) == Name(s, peer[p].node)
  {
    var j :| 0 <= j < |Adjs(s.nodes[a])| && Adjs(s.nodes[a])[j] == x;
    p := Port(a, j);
    assert AdjOk(peer, s, p);
  }

  /** Router a has a table, records d at v, and is informed about the ways to d. */
  ghost predicate At(peer: Cabling, s: Net, spf: seq<seq<Triple>>, d: nat, a: nat, v: int) {
    HasTable(s, spf, a) && Informed(peer, s, a, d) && Records(s, spf[a], d, v)
  }

  /** The next router on the way is one metric closer by its own reckoning. */
  lemma NextHopIsCloser(peer: Cabling, s: Net, ls: seq<seq<Lsp>>, spf: seq<seq<Triple>>, a: nat, d: nat, v: int)
    returns (p: Port)
    requires Inv(peer, s) && Quiescent(s) && SingleLinks(peer, s) && FreshSpf(s, ls, spf)
    requires d < |s.nodes| && s.nodes[d].sequenceNumber > 0 && a != d && At(peer, s, spf, d, a, v)
    ensures p.node == a && UpPort(peer, s, p) && ForwardsVia(s, spf[a], d, p)
    ensures At(peer, s, spf, d, peer[p].node, v - 10)
  {
    var i :| 0 <= i < |spf[a]| && spf[a][i].systemID == Name(s, d) && spf[a][i].distance == v;
    NotOurselves(peer, s, ls, spf, a, d, i);
    p := HopPort(peer, s, a, ls[a], spf[a], i);
    InformedOnwards(peer, s, p, d);
    CloserAtPeer(peer, s, ls, spf, p, d, v - 10);
  }

  lemma NotOurselves(peer: Cabling, s: Net, ls: seq<seq<Lsp>>, spf: seq<seq<Triple>>, a: nat, d: nat, i: nat)
    requires Cabled(peer, s) && FreshSpf(s, ls, spf) && a < |s.nodes| && d < |s.nodes| && a != d
    requires s.nodes[a].sequenceNumber > 0 && i < |spf[a]| && spf[a][i].systemID == Name(s, d)
    ensures i > 0
  {
    if Name(s, a) == Name(s, d) {
      NamesInjective(peer, s, a, d);
    }
  }

  lemma CloserAtPeer(peer: Cabling, s: Net, ls: seq<seq<Lsp>>, spf: seq<seq<Triple>>, p: Port, d: nat, v: int)
    requires Inv(peer, s) && FreshSpf(s, ls, spf) && UpPort(peer, s, p) && d < |s.nodes| && s.nodes[d].sequenceNumber > 0
    requires Informed(peer, s, p.node, d) && Informed(peer, s, peer[p].node, d)
    requires IsDistance(G(s, ls, p.node), Name(s, peer[p].node), Name(s, d), v)
    ensures s.nodes[peer[p].node].sequenceNumber > 0 && Records(s, spf[peer[p].node], d, v)
  {
    var b := peer[p].node;
    DistancesAgree(peer, s, ls, p.node, b, d, v);
    DistancesAgree(peer, s, ls, b, b, d, v);
    OnTheWayMeansGenerated(peer, s, b, d, v);
    RecordsDistance(s, ls, spf, b, d, v);
  }

  /** A router on the way to d has an UP port, or is d itself. */
  lemma OnTheWayMeansGenerated(peer: Cabling, s: Net, b: nat, d: nat, v: int)
    requires Cabled(peer, s) && NodesOk(s) && b < |s.nodes| && d < |s.nodes| && s.nodes[d].sequenceNumber > 0
    requires IsDistance(UpGraph(peer, s), Name(s, b), Name(s, d), v)
    ensures s.nodes[b].sequenceNumber > 0
  {
    var w :| Walk(UpGraph(peer, s), Name(s, b), Name(s, d), w) && Cost(w) == v;
    WalkReaches(peer, s, b, d, w);
    ReachesMeansGenerated(peer, s, b, d);
  }

  lemma ReachesMeansGenerated(peer: Cabling, s: Net, b: nat, d: nat)
    requires NodesOk(s) && b < |s.nodes| && Reaches(peer, s, b, d) && (b == d ==> s.nodes[d].sequenceNumber > 0)
    ensures s.nodes[b].sequenceNumber > 0
  {
    var ps :| Path(peer, s, b, d, ps);
    if ps != [] {
      HasGenerated(peer, s, ps[0]);
    }
  }

  lemma RecordsDistance(s: Net, ls: seq<seq<Lsp>>, spf: seq<seq<Triple>>, b: nat, d: nat, v: int)
    requires FreshSpf(s, ls, spf) && b < |s.nodes| && d < |s.nodes| && s.nodes[b].sequenceNumber > 0
    requires IsDistance(G(s, ls, b), Name(s, b), Name(s, d), v)
    ensures Records(s, spf[b], d, v)
  {
    var g := G(s, ls, b);
    assert IsSpfResult(g, Name(s, b), Adjs(s.nodes[b]), spf[b]);
    assert Reachable(g, Name(s, b), Name(s, d));
    var i :| 0 <= i < |spf[b]| && spf[b][i].systemID == Name(s, d);
    DistanceUnique(g, Name(s, b), Name(s, d), spf[b][i].distance, v);
  }

  /** A router that reaches d and is informed about it has d in its table. */
  lemma ReachedIsRecorded(peer: Cabling, s: Net, ls: seq<seq<Lsp>>, spf: seq<seq<Triple>>, a: nat, d: nat) returns (v: nat)
    requires Inv(peer, s) && FreshSpf(s, ls, spf) && a < |s.nodes| && d < |s.nodes| && s.nodes[a].sequenceNumber > 0
    requires Reaches(peer, s, a, d) && Informed(peer, s, a, d)
    ensures Records(s, spf[a], d, v)
  {
    var ps :| Path(peer, s, a, d, ps);
    var w := PathIsWalk(peer, s, a, d, ps);
    WalkIsKnown(peer, s, ls, a, Name(s, a), d, w);
    assert IsSpfResult(G(s, ls, a), Name(s, a), Adjs(s.nodes[a]), spf[a]);
    assert Reachable(G(s, ls, a), Name(s, a), Name(s, d));
    var i :| 0 <= i < |spf[a]| && spf[a][i].systemID == Name(s, d);
    v := spf[a][i].distance;
  }

  /** Router a has generated an LSP, and so has a table. */
  ghost predicate HasTable(s: Net, spf: seq<seq<Triple>>, a: nat) {
    a < |spf| && a < |s.nodes| && s.nodes[a].sequenceNumber > 0
  }

  /** Packets for d take these routers in turn; each forwards by its own table, and each
      is 10 closer than the one before. */
  ghost predicate IsRoute(peer: Cabling, s: Net, spf: seq<seq<Triple>>, d: nat, route: seq<nat>) {
    && route != [] && route[|route| - 1] == d
    && (forall k :: 0 <= k < |route| ==>
          HasTable(s, spf, route[k]) && Records(s, spf[route[k]], d, 10 * (|route| - 1 - k)))
    && (forall k :: 0 <= k < |route| - 1 ==> Hop(peer, s, spf, d, route[k], route[k + 1]))
  }

  /** Router a sends packets for d out of a port that is cabled to b. */
  ghost predicate Hop(peer: Cabling, s: Net, spf: seq<seq<Triple>>, d: nat, a: nat, b: nat) {
    a < |spf| && exists p :: p in peer && p.node == a && peer[p].node == b && ForwardsVia(s, spf[a], d, p)
  }

  lemma RecordsUnique(s: Net, paths: seq<Triple>, d: nat, u: int, v: int)
    requires Distinct(paths) && Records(s, paths, d, u) && Records(s, paths, d, v)
    ensures u == v
  {
  }

  lemma SelfRecord(s: Net, ls: seq<seq<Lsp>>, spf: seq<seq<Triple>>, d: nat, v: int)
    requires FreshSpf(s, ls, spf) && d < |s.nodes| && s.nodes[d].sequenceNumber > 0 && Records(s, spf[d], d, v)
    ensures v == 0
  {
    assert IsSpfResult(G(s, ls, d), Name(s, d), Adjs(s.nodes[d]), spf[d]);
    assert spf[d][0] == Triple(Name(s, d), 0, None);
    RecordsUnique(s, spf[d], d, 0, v);
  }

  /** Each such router but d itself has a next hop that is 10 closer. */
  ghost predicate Descending(peer: Cabling, s: Net, spf: seq<seq<Triple>>, d: nat) {
    && (forall v :: At(peer, s, spf, d, d, v) ==> v == 0)
    && (forall a, v :: At(peer, s, spf, d, a, v) && a != d ==>
          v >= 10 && exists b :: At(peer, s, spf, d, b, v - 10) && Hop(peer, s, spf, d, a, b))
  }

  lemma QuietIsDescending(peer: Cabling, s: Net, ls: seq<seq<Lsp>>, spf: seq<seq<Triple>>, d: nat)
    requires Inv(peer, s) && Quiescent(s) && SingleLinks(peer, s) && FreshSpf(s, ls, spf)
    requires d < |s.nodes| && s.nodes[d].sequenceNumber > 0
    ensures Descending(peer, s, spf, d)
  {
    forall v | At(peer, s, spf, d, d, v) ensures v == 0 {
      SelfRecord(s, ls, spf, d, v);
    }
    forall a, v | At(peer, s, spf, d, a, v) && a != d
      ensures v >= 10 && exists b :: At(peer, s, spf, d, b, v - 10) && Hop(peer, s, spf, d, a, b)
    {
      var b := FirstHop(peer, s, ls, spf, a, d, v);
      assert At(peer, s, spf, d, b, v - 10);
    }
  }

  /** Following the recorded next hops from any router reaches d. */
  lemma {:induction false} Delivered(peer: Cabling, s: Net, spf: seq<seq<Triple>>, a: nat, d: nat, v: nat)
    returns (route: seq<nat>)
    requires Descending(peer, s, spf, d) && At(peer, s, spf, d, a, v)
    ensures IsRoute(peer, s, spf, d, route) && route[0] == a && v == 10 * (|route| - 1)
    decreases v
  {
    if a == d {
      route := [d];
      RouteNil(peer, s, spf, d);
    } else {
      var b: nat :| At(peer, s, spf, d, b, v - 10) && Hop(peer, s, spf, d, a, b);
      var rest := Delivered(peer, s, spf, b, d, v - 10);
      route := [a] + rest;
      RouteCons(peer, s, spf, d, a, rest, v);
    }
  }

  lemma FirstHop(peer: Cabling, s: Net, ls: seq<seq<Lsp>>, spf: seq<seq<Triple>>, a: nat, d: nat, v: int) returns (b: nat)
    requires Inv(peer, s) && Quiescent(s) && SingleLinks(peer, s) && FreshSpf(s, ls, spf)
    requires d < |s.nodes| && s.nodes[d].sequenceNumber > 0 && a != d && At(peer, s, spf, d, a, v)
    ensures At(peer, s, spf, d, b, v - 10) && v >= 10 && Hop(peer, s, spf, d, a, b)
  {
    var p := NextHopIsCloser(peer, s, ls, spf, a, d, v);
    b := peer[p].node;
    assert ForwardsVia(s, spf[a], d, p);
  }

  lemma RouteNil(peer: Cabling, s: Net, spf: seq<seq<Triple>>, d: nat)
    requires HasTable(s, spf, d) && Records(s, spf[d], d, 0)
    ensures IsRoute(peer, s, spf, d, [d])
  {
  }

  lemma RouteCons(peer: Cabling, s: Net, spf: seq<seq<Triple>>, d: nat, a: nat, rest: seq<nat>, v: nat)
    requires IsRoute(peer, s, spf, d, rest) && v - 10 == 10 * (|rest| - 1)
    requires HasTable(s, spf, a) && Records(s, spf[a], d, v) && Hop(peer, s, spf, d, a, rest[0])
    ensures IsRoute(peer, s, spf, d, [a] + rest) && v == 10 * (|[a] + rest| - 1)
  {
    var route := [a] + rest;
    forall k | 0 <= k < |route|
      ensures HasTable(s, spf, route[k]) && Records(s, spf[route[k]], d, 10 * (|route| - 1 - k))
    {
      if k > 0 { assert route[k] == rest[k - 1]; }
    }
    forall k | 0 <= k < |route| - 1 ensures Hop(peer, s, spf, d, route[k], route[k + 1]) {
      if k > 0 { assert route[k] == rest[k - 1] && route[k + 1] == rest[k]; }
    }
  }

  /** A route never visits a router twice. */
  lemma RouteHasNoLoop(peer: Cabling, s: Net, ls: seq<seq<Lsp>>, spf: seq<seq<Triple>>, d: nat, route: seq<nat>, j: nat, k: nat)
    requires FreshSpf(s, ls, spf) && IsRoute(peer, s, spf, d, route) && j < k < |route|
    ensures route[j] != route[k]
  {
    var a, u, v := route[j], 10 * (|route| - 1 - j), 10 * (|route| - 1 - k);
    assert IsSpfResult(G(s, ls, a), Name(s, a), Adjs(s.nodes[a]), spf[a]);
    if Records(s, spf[a], d, v) {
      RecordsUnique(s, spf[a], d, u, v);
    }
  }

  /** Forwarding is a function: a router's table sends packets for d to one router only. */
  lemma HopIsUnique(peer: Cabling, s: Net, ls: seq<seq<Lsp>>, spf: seq<seq<Triple>>, d: nat, a: nat, b: nat, c: nat)
    requires Inv(peer, s) && SingleLinks(peer, s) && FreshSpf(s, ls, spf) && d < |s.nodes| && a != d
    requires HasTable(s, spf, a)
    requires Hop(peer, s, spf, d, a, b) && Hop(peer, s, spf, d, a, c)
    ensures b == c
  {
    var p :| p in peer && p.node == a && peer[p].node == b && ForwardsVia(s, spf[a], d, p);
    var q :| q in peer && q.node == a && peer[q].node == c && ForwardsVia(s, spf[a], d, q);
    RecordedIsUp(peer, s, ls, spf, d, p);
    assert IsSpfResult(G(s, ls, a), Name(s, a), Adjs(s.nodes[a]), spf[a]);
    assert IntfAt(s, q).adj == IntfAt(s, p).adj;
    SameAdjacencySamePeer(peer, s, p, q);
  }

  lemma RecordedIsUp(peer: Cabling, s: Net, ls: seq<seq<Lsp>>, spf: seq<seq<Triple>>, d: nat, p: Port)
    requires Inv(peer, s) && SingleLinks(peer, s) && FreshSpf(s, ls, spf) && d < |s.nodes| && p.node != d
    requires HasTable(s, spf, p.node) && ForwardsVia(s, spf[p.node], d, p)
    ensures IntfAt(s, p).adj.state == UP
  {
    var a := p.node;
    var i :| 0 <= i < |spf[a]| && spf[a][i].systemID == Name(s, d) && spf[a][i].adj == Some(IntfAt(s, p).adj);
    NotOurselves(peer, s, ls, spf, a, d, i);
    var r := HopPort(peer, s, a, ls[a], spf[a], i);
  }

  lemma SameAdjacencySamePeer(peer: Cabling, s: Net, p: Port, q: Port)
    requires Cabled(peer, s) && AdjsOk(peer, s) && IsPort(s, p) && IsPort(s, q)
    requires IntfAt(s, p).adj == IntfAt(s, q).adj && IntfAt(s, p).adj.state == UP
    ensures p in peer && q in peer && peer[p].node == peer[q].node
  {
    assert AdjOk(peer, s, p) && AdjOk(peer, s, q);
  }

  /** End to end, for every run from boot: once flooding is quiet and no two routers share
      two links, fresh shortest-path tables forward every packet between routers that
      reach each other over UP ports, whatever the state of other adjacencies, along a
      loop-free route of the recorded length, and there is no other way it can go. */
  lemma LoopFreeForwarding(peer: Cabling, s0: Net, es: seq<Event>, ls: seq<seq<Lsp>>, spf: seq<seq<Triple>>, a: nat, d: nat)
    returns (route: seq<nat>)
    requires ReachableBy(peer, s0, es) && Quiescent(After(peer, s0, es)) && SingleLinks(peer, After(peer, s0, es))
    requires FreshSpf(After(peer, s0, es), ls, spf)
    requires a < |After(peer, s0, es).nodes| && d < |After(peer, s0, es).nodes|
    requires Joined(peer, After(peer, s0, es), a, d)
    requires a == d ==> After(peer, s0, es).nodes[a].sequenceNumber > 0
    ensures IsRoute(peer, After(peer, s0, es), spf, d, route) && route[0] == a
    ensures forall j, k :: 0 <= j < k < |route| ==> route[j] != route[k]
    ensures forall k, b :: 0 <= k < |route| - 1 && b >= 0 && Hop(peer, After(peer, s0, es), spf, d, route[k], b) ==>
              b == route[k + 1]
  {
    var s := After(peer, s0, es);
    ReachableInv(peer, s0, es);
    route := RouteBetween(peer, s, ls, spf, a, d);
    forall j, k | 0 <= j < k < |route| ensures route[j] != route[k] {
      RouteHasNoLoop(peer, s, ls, spf, d, route, j, k);
    }
    forall k, b | 0 <= k < |route| - 1 && b >= 0 && Hop(peer, s, spf, d, route[k], b) ensures b == route[k + 1] {
      assert route[k] != route[|route| - 1];
      HopIsUnique(peer, s, ls, spf, d, route[k], b, route[k + 1]);
    }
  }

  lemma RouteBetween(peer: Cabling, s: Net, ls: seq<seq<Lsp>>, spf: seq<seq<Triple>>, a: nat, d: nat)
    returns (route: seq<nat>)
    requires Inv(peer, s) && Quiescent(s) && SingleLinks(peer, s) && FreshSpf(s, ls, spf)
    requires a < |s.nodes| && d < |s.nodes| && Joined(peer, s, a, d) && (a == d ==> s.nodes[a].sequenceNumber > 0)
    ensures IsRoute(peer, s, spf, d, route) && route[0] == a
  {
    ReachesMeansGenerated(peer, s, a, d);
    ReachesMeansGenerated(peer, s, d, a);
    ReachedIsInformed(peer, s, d, a);
    var v := ReachedIsRecorded(peer, s, ls, spf, a, d);
    QuietIsDescending(peer, s, ls, spf, d);
    route := Delivered(peer, s, spf, a, d, v);
  }
}
