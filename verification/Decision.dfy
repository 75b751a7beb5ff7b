/** The decision process: computeSPF and its helpers, with the PATHS and TENT lists
    growing and shrinking as in decision.go. */
module Decision {
  import opened Bytes
  import opened Wrappers
  import opened Lsps
  import opened Graphs
  import opened Interfaces
  import opened Spf
  import SystemId

  // ----- Helpers ---------------------------------------------------------------------

  method CheckInPaths(id: string, paths: seq<Triple>) returns (found: bool)
    ensures found <==> InList(paths, id)
  {
    for i := 0 to |paths|
      invariant forall k :: 0 <= k < i ==> paths[k].systemID != id
    {
      if paths[i].systemID == id {
        return true;
      }
    }
    return false;
  }

  method AddAdjToTent(dist: uint32, adj: Option<Adjacency>, n: Neighbor, tent: seq<Triple>, paths: seq<Triple>)
    returns (tent': seq<Triple>, added: int)
    ensures tent' == AddToTent(dist, adj, n, tent, paths)
    ensures added == |tent'| - |tent|
  {
    tent', added := tent, 0;
    var settled := CheckInPaths(n.systemID, paths);
    if settled {
      return;
    }
    var found := false;
    for i := 0 to |tent|
      invariant |tent'| == |tent|
      invariant found <==> exists k :: 0 <= k < i && tent[k].systemID == n.systemID
      invariant forall k :: 0 <= k < |tent| ==>
        tent'[k] == if k < i then Lower(tent[k], n.systemID, AddUint32(n.metric, dist)) else tent[k]
    {
      if n.systemID == tent[i].systemID {
        found := true;
        if AddUint32(n.metric, dist) < tent[i].distance {
          tent' := tent'[i := tent[i].(distance := AddUint32(n.metric, dist))];
        }
      }
    }
    if !found {
      assert tent' == tent;
      tent' := tent' + [Triple(n.systemID, AddUint32(n.metric, dist), adj)];
      added := 1;
    }
  }

  /** The neighbours listed by every LSP of system u. */
  function NeighborsIn(lsps: seq<Lsp>, u: string): seq<Neighbor>
    requires forall l :: l in lsps ==> AllReadable(l.core.tlvs)
  {
    if lsps == [] then []
    else
      var l := lsps[|lsps| - 1];
      NeighborsIn(lsps[..|lsps| - 1], u) + (if SystemOf(l) == u then LookupNeighbors(l.core.tlvs) else [])
  }

  method GetAdjacencies(u: string, unknown: seq<Lsp>) returns (ns: seq<Neighbor>)
    requires forall l :: l in unknown ==> AllReadable(l.core.tlvs)
    ensures ns == NeighborsIn(unknown, u)
  {
    ns := [];
    for i := 0 to |unknown|
      invariant ns == NeighborsIn(unknown[..i], u)
    {
      assert unknown[..i + 1][..i] == unknown[..i];
      var id := SystemId.SystemIDToString(unknown[i].lspID[..6]);
      if u == id {
        ns := ns + LookupNeighbors(unknown[i].core.tlvs);
      }
    }
    assert unknown[..|unknown|] == unknown;
  }

  lemma {:induction false} NeighborsInMeans(lsps: seq<Lsp>, u: string, n: Neighbor)
    requires forall l :: l in lsps ==> AllReadable(l.core.tlvs)
    ensures n in NeighborsIn(lsps, u) <==>
            exists l :: l in lsps && SystemOf(l) == u && n in LookupNeighbors(l.core.tlvs)
  {
    if lsps != [] {
      var init, l := lsps[..|lsps| - 1], lsps[|lsps| - 1];
      NeighborsInMeans(init, u, n);
      assert forall x :: x in lsps <==> x in init || x == l;
    }
  }

  /** The minimum scan: the first tentative entry of least distance, or -1 when every
      distance is the sentinel. */
  method ScanTent(tent: seq<Triple>) returns (best: int, minCost: uint32)
    ensures best == -1 <==> forall k :: 0 <= k < |tent| ==> tent[k].distance == MAX_UINT32
    ensures best != -1 ==> IsClosest(tent, best) && minCost == tent[best].distance
    ensures best != -1 ==> forall k :: 0 <= k < best ==> tent[k].distance > minCost
  {
    minCost, best := MAX_UINT32, -1;
    for i := 0 to |tent|
      invariant -1 <= best < i
      invariant best == -1 ==> minCost == MAX_UINT32
      invariant best != -1 ==> minCost == tent[best].distance < MAX_UINT32
      invariant forall k :: 0 <= k < i ==> minCost <= tent[k].distance
      invariant forall k :: 0 <= k < best ==> tent[k].distance > minCost
    {
      if tent[i].distance < minCost {
        minCost, best := tent[i].distance, i;
      }
    }
  }

  // ----- The first TENT -----------------------------------------------------------------

  /** One tentative entry for each UP interface. */
  function UpTriples(adjs: seq<Adjacency>): seq<Triple> {
    if adjs == [] then []
    else
      var a := adjs[|adjs| - 1];
      UpTriples(adjs[..|adjs| - 1]) + (if a.state == UP then [Triple(NeighborId(a), a.metric, Some(a))] else [])
  }

  method LoadTent(adjs: seq<Adjacency>) returns (tent: seq<Triple>)
    ensures tent == UpTriples(adjs)
  {
    tent := [];
    for i := 0 to |adjs|
      invariant tent == UpTriples(adjs[..i])
    {
      assert adjs[..i + 1][..i] == adjs[..i];
      if adjs[i].state == UP {
        var id := SystemId.SystemIDToString(adjs[i].neighborSystemID);
        tent := tent + [Triple(id, adjs[i].metric, Some(adjs[i]))];
      }
    }
    assert adjs[..|adjs|] == adjs;
  }

  /** The assumption computeSPF states: at most one adjacency per neighbour, and
      (from the hello process) none with ourselves. */
  ghost predicate NoParallel(local: string, adjs: seq<Adjacency>) {
    && (forall i, j :: 0 <= i < j < |adjs| && adjs[i].state == UP && adjs[j].state == UP ==>
          NeighborId(adjs[i]) != NeighborId(adjs[j]))
    && (forall i :: 0 <= i < |adjs| && adjs[i].state == UP ==> NeighborId(adjs[i]) != local)
  }

  /** The entry of one of the UP adjacencies. */
  ghost predicate FromAdjacency(adjs: seq<Adjacency>, t: Triple) {
    && t.adj.Some? && t.adj.value in adjs && t.adj.value.state == UP
    && t == Triple(NeighborId(t.adj.value), t.adj.value.metric, t.adj)
  }

  lemma {:induction false} EntriesAreAdjacencies(adjs: seq<Adjacency>)
    ensures forall k :: 0 <= k < |UpTriples(adjs)| ==> FromAdjacency(adjs, UpTriples(adjs)[k])
  {
    if adjs != [] {
      var init, a := adjs[..|adjs| - 1], adjs[|adjs| - 1];
      EntriesAreAdjacencies(init);
      assert a in adjs && forall x :: x in init ==> x in adjs;
    }
  }

  lemma {:induction false} AdjacenciesAreEntries(adjs: seq<Adjacency>, a: Adjacency)
    requires a in adjs && a.state == UP
    ensures Triple(NeighborId(a), a.metric, Some(a)) in UpTriples(adjs)
  {
    var init := adjs[..|adjs| - 1];
    if a != adjs[|adjs| - 1] {
      assert a in init;
      AdjacenciesAreEntries(init, a);
    }
  }

  lemma {:induction false} EntriesAreDistinct(local: string, adjs: seq<Adjacency>)
    requires NoParallel(local, adjs)
    ensures Distinct(UpTriples(adjs))
  {
    if adjs != [] {
      var init, a := adjs[..|adjs| - 1], adjs[|adjs| - 1];
      EntriesAreDistinct(local, init);
      EntriesAreAdjacencies(init);
      var tent := UpTriples(init);
      if a.state == UP {
        forall k | 0 <= k < |tent| ensures tent[k].systemID != NeighborId(a) {
          assert FromAdjacency(init, tent[k]);
        }
      }
    }
  }

  lemma UpTriplesMeans(local: string, adjs: seq<Adjacency>)
    requires NoParallel(local, adjs)
    ensures var tent := UpTriples(adjs);
      && Distinct(tent)
      && (forall k :: 0 <= k < |tent| ==> FromAdjacency(adjs, tent[k]))
      && (forall a :: a in adjs && a.state == UP ==> Triple(NeighborId(a), a.metric, Some(a)) in tent)
  {
    EntriesAreDistinct(local, adjs);
    EntriesAreAdjacencies(adjs);
    forall a | a in adjs && a.state == UP ensures Triple(NeighborId(a), a.metric, Some(a)) in UpTriples(adjs) {
      AdjacenciesAreEntries(adjs, a);
    }
  }

  lemma {:induction false} AdjacencyToIs(local: string, adjs: seq<Adjacency>, a: Adjacency)
    requires NoParallel(local, adjs) && a in adjs && a.state == UP
    ensures AdjacencyTo(adjs, NeighborId(a)) == Some(a)
  {
    if adjs[0] != a {
      assert a in adjs[1..];
      AdjacencyToIs(local, adjs[1..], a);
    }
  }

  lemma LocalLinks(local: string, adjs: seq<Adjacency>, lsps: seq<Lsp>, e: Edge)
    requires forall l :: l in lsps ==> AllReadable(l.core.tlvs)
    requires e in GraphOf(local, adjs, lsps) && e.from == local
    ensures exists a :: a in adjs && a.state == UP && e == Edge(local, NeighborId(a), a.metric)
  {
  }

  lemma FirstEntry(g: Graph, local: string, adjs: seq<Adjacency>, m: nat, paths: seq<Triple>, a: Adjacency)
    requires NoParallel(local, adjs) && a in adjs && a.state == UP && paths == [Triple(local, 0, None)]
    requires Edge(local, NeighborId(a), a.metric) in g && MetricsAtMost(g, m)
    ensures Tentative(g, local, adjs, paths, Triple(NeighborId(a), a.metric, Some(a)), m)
  {
    var e := Edge(local, NeighborId(a), a.metric);
    var t := Triple(NeighborId(a), a.metric, Some(a));
    assert Walk(g, local, local, []) && Cost([]) == 0;
    AttainedVia(g, local, e, 0);
    AdjacencyToIs(local, adjs, a);
    assert FirstPredecessor(g, paths, t.systemID, 0);
    assert Times(1, m) == m;
  }

  lemma FirstTentative(g: Graph, local: string, adjs: seq<Adjacency>, m: nat, k: nat)
    requires NoParallel(local, adjs) && MetricsAtMost(g, m)
    requires forall a :: a in adjs && a.state == UP ==> Edge(local, NeighborId(a), a.metric) in g
    requires k < |UpTriples(adjs)| && FromAdjacency(adjs, UpTriples(adjs)[k])
    ensures Tentative(g, local, adjs, [Triple(local, 0, None)], UpTriples(adjs)[k], m)
    ensures UpTriples(adjs)[k].systemID != local
  {
    var t := UpTriples(adjs)[k];
    FirstEntry(g, local, adjs, m, [Triple(local, 0, None)], t.adj.value);
  }

  lemma FirstRelaxed(local: string, adjs: seq<Adjacency>, lsps: seq<Lsp>)
    requires forall l :: l in lsps ==> AllReadable(l.core.tlvs)
    ensures Relaxed(GraphOf(local, adjs, lsps), [Triple(local, 0, None)], UpTriples(adjs), {})
  {
    var g, paths, tent := GraphOf(local, adjs, lsps), [Triple(local, 0, None)], UpTriples(adjs);
    forall i, e | 0 <= i < |paths| && e in g && e !in {} && e.from == paths[i].systemID
      ensures Covered(paths, tent, e.to, paths[i].distance + e.metric)
    {
      LocalLinks(local, adjs, lsps, e);
      var a :| a in adjs && a.state == UP && e == Edge(local, NeighborId(a), a.metric);
      AdjacenciesAreEntries(adjs, a);
      var k :| 0 <= k < |tent| && tent[k] == Triple(NeighborId(a), a.metric, Some(a));
    }
  }

  /** The loop invariant holds before the first iteration. */
  lemma StartInv(local: string, adjs: seq<Adjacency>, lsps: seq<Lsp>, m: nat)
    requires forall l :: l in lsps ==> AllReadable(l.core.tlvs)
    requires NoParallel(local, adjs) && MetricsAtMost(GraphOf(local, adjs, lsps), m)
    ensures SpfInv(GraphOf(local, adjs, lsps), local, adjs, m, [Triple(local, 0, None)], UpTriples(adjs), {})
  {
    var g, paths, tent := GraphOf(local, adjs, lsps), [Triple(local, 0, None)], UpTriples(adjs);
    UpTriplesMeans(local, adjs);
    SelfDistance(g, local);
    forall k | 0 <= k < |tent|
      ensures Tentative(g, local, adjs, paths, tent[k], m) && tent[k].systemID != local
    {
      FirstTentative(g, local, adjs, m, k);
    }
    DistinctCons(paths[0], tent);
    FirstRelaxed(local, adjs, lsps);
  }

  lemma DistinctCons(t: Triple, ts: seq<Triple>)
    requires Distinct(ts) && forall k :: 0 <= k < |ts| ==> ts[k].systemID != t.systemID
    ensures Distinct([t] + ts)
  {
  }

  // ----- The main loop --------------------------------------------------------------------

  ghost predicate OnlyOneLocal(local: string, lsps: seq<Lsp>) {
    forall i, j :: 0 <= i < j < |lsps| && SystemOf(lsps[i]) == local ==> SystemOf(lsps[j]) != local
  }

  /** The links still open once ns[..k] have been handled. */
  ghost function StillOpen(g: Graph, u: string, ns: seq<Neighbor>, k: nat): set<Edge>
    requires k <= |ns|
  {
    set e | e in g && e.from == u && exists i :: k <= i < |ns| && ns[i].systemID == e.to && ns[i].metric == e.metric
  }

  ghost predicate ListsLinks(g: Graph, u: string, ns: seq<Neighbor>) {
    && (forall i :: 0 <= i < |ns| ==> Edge(u, ns[i].systemID, ns[i].metric) in g)
    && (forall e :: e in g && e.from == u ==>
          exists i :: 0 <= i < |ns| && ns[i].systemID == e.to && ns[i].metric == e.metric)
  }

  /** The loop over a newly settled system's neighbours. With equal metrics it only appends
      to TENT: no distance is ever lowered. */
  method RelaxAll(ghost g: Graph, ghost local: string, ghost adjs: seq<Adjacency>, ghost m: nat,
                  paths: seq<Triple>, tent: seq<Triple>, size: int, ns: seq<Neighbor>)
    returns (tent': seq<Triple>, size': int)
    requires |paths| >= 2 && size == |tent| && MetricsAtMost(g, m)
    requires (|Systems(g, local)| - 1) * m < MAX_UINT32
    requires ListsLinks(g, paths[|paths| - 1].systemID, ns)
    requires SpfInv(g, local, adjs, m, paths, tent, LinksFrom(g, paths[|paths| - 1].systemID))
    requires Spanned(g, tent, paths[|paths| - 1].distance)
    ensures SpfInv(g, local, adjs, m, paths, tent', {}) && size' == |tent'|
    ensures (exists mu: nat :: Uniform(g, mu)) ==> tent <= tent'
  {
    tent', size' := tent, size;
    var u := paths[|paths| - 1];
    DistinctParts(paths, tent);
    assert StillOpen(g, u.systemID, ns, 0) == LinksFrom(g, u.systemID);
    for i := 0 to |ns|
      invariant SpfInv(g, local, adjs, m, paths, tent', StillOpen(g, u.systemID, ns, i)) && size' == |tent'|
      invariant Spanned(g, tent', u.distance) && ((exists mu: nat :: Uniform(g, mu)) ==> tent <= tent')
    {
      UniformRelax(g, local, adjs, m, paths, tent', ns[i]);
      AddKeepsInv(g, local, adjs, m, paths, tent', StillOpen(g, u.systemID, ns, i), ns[i]);
      OpenStep(g, u.systemID, ns, i);
      var added;
      tent', added := AddAdjToTent(u.distance, u.adj, ns[i], tent', paths);
      size' := size' + added;
    }
    assert StillOpen(g, u.systemID, ns, |ns|) == {};
  }

  /** Handling ns[i] leaves open exactly what ns[i + 1..] lists; a link listed again
      later stays open a little longer, which only weakens the invariant. */
  lemma OpenStep(g: Graph, u: string, ns: seq<Neighbor>, i: nat)
    requires i < |ns|
    ensures StillOpen(g, u, ns, i) - {Edge(u, ns[i].systemID, ns[i].metric)} <= StillOpen(g, u, ns, i + 1)
  {
  }

  lemma ListedIsLink(local: string, adjs: seq<Adjacency>, lsps: seq<Lsp>, unknown: seq<Lsp>, u: string, n: Neighbor)
    requires forall l :: l in lsps ==> AllReadable(l.core.tlvs)
    requires forall l :: l in unknown ==> l in lsps
    requires u != local && n in NeighborsIn(unknown, u)
    ensures Edge(u, n.systemID, n.metric) in GraphOf(local, adjs, lsps)
  {
    NeighborsInMeans(unknown, u, n);
  }

  lemma LinkIsFound(local: string, adjs: seq<Adjacency>, lsps: seq<Lsp>, unknown: seq<Lsp>, e: Edge)
    requires forall l :: l in lsps ==> AllReadable(l.core.tlvs)
    requires forall l :: l in unknown ==> l in lsps
    requires forall l :: l in lsps && SystemOf(l) != local ==> l in unknown
    requires e in GraphOf(local, adjs, lsps) && e.from != local
    ensures e.metric <= MAX_UINT32 && AsNeighbor(e) in NeighborsIn(unknown, e.from)
  {
    LinkIsListed(local, adjs, lsps, e);
    NeighborsInMeans(unknown, e.from, AsNeighbor(e));
  }

  /** For any system but ours, the LSPs left in `unknown` list exactly its links. */
  lemma UnknownListsLinks(local: string, adjs: seq<Adjacency>, lsps: seq<Lsp>, i: nat, u: string)
    requires forall l :: l in lsps ==> AllReadable(l.core.tlvs)
    requires i < |lsps| && SystemOf(lsps[i]) == local && u != local
    ensures forall l :: l in lsps[..i] + lsps[i + 1..] ==> l in lsps
    ensures ListsLinks(GraphOf(local, adjs, lsps), u, NeighborsIn(lsps[..i] + lsps[i + 1..], u))
  {
    var unknown := lsps[..i] + lsps[i + 1..];
    assert forall l :: l in lsps && l != lsps[i] ==> l in unknown;
    forall n | n in NeighborsIn(unknown, u)
      ensures Edge(u, n.systemID, n.metric) in GraphOf(local, adjs, lsps)
    {
      ListedIsLink(local, adjs, lsps, unknown, u, n);
    }
    forall e | e in GraphOf(local, adjs, lsps) && e.from == u
      ensures e.metric <= MAX_UINT32 && AsNeighbor(e) in NeighborsIn(unknown, u)
    {
      LinkIsFound(local, adjs, lsps, unknown, e);
    }
  }

  function AsNeighbor(e: Edge): Neighbor
    requires e.metric <= MAX_UINT32
  {
    Neighbor(e.to, e.metric)
  }

  lemma LinkIsListed(local: string, adjs: seq<Adjacency>, lsps: seq<Lsp>, e: Edge)
    requires forall l :: l in lsps ==> AllReadable(l.core.tlvs)
    requires e in GraphOf(local, adjs, lsps) && e.from != local
    ensures e.metric <= MAX_UINT32
    ensures exists l :: l in lsps && SystemOf(l) == e.from && AsNeighbor(e) in LookupNeighbors(l.core.tlvs)
  {
    var l, n :| l in lsps && SystemOf(l) != local && n in LookupNeighbors(l.core.tlvs)
                && e == Edge(SystemOf(l), n.systemID, n.metric);
    assert AsNeighbor(e) == n;
  }

  /** Finds our own LSP; -1 when the database does not hold it. */
  method FindLocal(local: string, lsps: seq<Lsp>) returns (index: int, paths: seq<Triple>)
    requires OnlyOneLocal(local, lsps)
    ensures index == -1 <==> forall i :: 0 <= i < |lsps| ==> SystemOf(lsps[i]) != local
    ensures index != -1 ==> 0 <= index < |lsps| && SystemOf(lsps[index]) == local && paths == [Triple(local, 0, None)]
  {
    index, paths := -1, [];
    for i := 0 to |lsps|
      invariant if index == -1 then paths == [] && forall k :: 0 <= k < i ==> SystemOf(lsps[k]) != local
        else 0 <= index < i && SystemOf(lsps[index]) == local && paths == [Triple(local, 0, None)]
    {
      var id := SystemId.SystemIDToString(lsps[i].lspID[..6]);
      if id == local {
        paths := paths + [Triple(local, 0, None)];
        index := i;
      }
    }
  }

  lemma TentIsReal(g: Graph, local: string, adjs: seq<Adjacency>, m: nat, paths: seq<Triple>, tent: seq<Triple>)
    requires SpfInv(g, local, adjs, m, paths, tent, {}) && tent != []
    requires (|Systems(g, local)| - 1) * m < MAX_UINT32
    ensures tent[0].distance < MAX_UINT32 && |paths| < |Systems(g, local)|
    ensures forall k :: 0 <= k < |tent| ==> tent[k].systemID != local
  {
    DistinctParts(paths, tent);
    assert Tentative(g, local, adjs, paths, tent[0], m);
    SettledInSystems(g, local, tent[0].systemID, tent[0].distance);
    RoomLeft(g, local, adjs, m, paths, tent[0].systemID);
    forall k | 0 <= k < |tent|
      ensures tent[k].systemID != local
    {
      assert !InList(paths, tent[k].systemID);
      assert paths[0].systemID == local;
    }
  }

  /** Dijkstra over the LSP database. m bounds the metrics; the sum along the longest
      possible shortest path must stay below the uint32 sentinel. */
  method ComputeSPF(local: string, adjs: seq<Adjacency>, lsps: seq<Lsp>, ghost m: nat)
    returns (result: Option<seq<Triple>>)
    requires forall l :: l in lsps ==> AllReadable(l.core.tlvs)
    requires OnlyOneLocal(local, lsps) && NoParallel(local, adjs)
    requires MetricsAtMost(GraphOf(local, adjs, lsps), m)
    requires (|Systems(GraphOf(local, adjs, lsps), local)| - 1) * m < MAX_UINT32
    ensures result.None? <==> forall i :: 0 <= i < |lsps| ==> SystemOf(lsps[i]) != local
    ensures result.Some? ==> IsSpfResult(GraphOf(local, adjs, lsps), local, adjs, result.value)
  {
    ghost var g := GraphOf(local, adjs, lsps);
    var index, paths := FindLocal(local, lsps);
    if index == -1 {
      return None;
    }
    var unknown := lsps[..index] + lsps[index + 1..];
    var tent := LoadTent(adjs);
    var tentSize := |tent|;
    StartInv(local, adjs, lsps, m);
    while tentSize > 0
      invariant tentSize == |tent| && SpfInv(g, local, adjs, m, paths, tent, {})
      decreases |Systems(g, local)| - |paths|
    {
      TentIsReal(g, local, adjs, m, paths, tent);
      var best, minCost := ScanTent(tent);
      SettleClosest(g, local, adjs, m, paths, tent, best);
      SpanAfterSettle(g, local, adjs, m, paths, tent, best);
      UnknownListsLinks(local, adjs, lsps, index, tent[best].systemID);
      paths := paths + [tent[best]];
      var bestAdjacencies := GetAdjacencies(tent[best].systemID, unknown);
      tent := tent[..best] + tent[best + 1..];
      tentSize := tentSize - 1;
      tent, tentSize := RelaxAll(g, local, adjs, m, paths, tent, tentSize, bestAdjacencies);
    }
    Exhausted(g, local, adjs, m, paths);
    return Some(paths);
  }
}
