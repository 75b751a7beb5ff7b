/** What a run of the decision process must deliver, and the invariant of its main
    loop. Module Decision holds the loop itself. */
module Spf {
  import opened Bytes
  import opened Wrappers
  import opened Lsps
  import opened Graphs
  import opened Interfaces
  import SystemId

  /** A system, its distance, and the local adjacency through which to reach it. */
  datatype Triple = Triple(systemID: string, distance: uint32, adj: Option<Adjacency>)

  // ----- The graph the databases describe ------------------------------------------

  function SystemOf(l: Lsp): string {
    SystemId.Text(l.lspID[..6])
  }

  /** Our own links come from the UP interfaces, all others from the LSPs. */
  ghost function GraphOf(local: string, adjs: seq<Adjacency>, lsps: seq<Lsp>): Graph
    requires forall l :: l in lsps ==> AllReadable(l.core.tlvs)
  {
    (set a | a in adjs && a.state == UP :: Edge(local, NeighborId(a), a.metric)) +
    (set l, n | l in lsps && SystemOf(l) != local && n in LookupNeighbors(l.core.tlvs) ::
       Edge(SystemOf(l), n.systemID, n.metric))
  }

  /** Every system the graph can lead to, and the source. */
  ghost function Systems(g: Graph, local: string): set<string> {
    {local} + set e | e in g :: e.to
  }

  ghost predicate MetricsAtMost(g: Graph, m: nat) {
    forall e :: e in g ==> e.metric <= m
  }

  ghost predicate Uniform(g: Graph, m: nat) {
    forall e :: e in g ==> e.metric == m
  }

  // ----- Lists of triples -------------------------------------------------------------

  predicate InList(ts: seq<Triple>, id: string) {
    exists i :: 0 <= i < |ts| && ts[i].systemID == id
  }

  ghost predicate Distinct(ts: seq<Triple>) {
    forall i, j :: 0 <= i < j < |ts| ==> ts[i].systemID != ts[j].systemID
  }

  ghost predicate Sorted(ts: seq<Triple>) {
    forall i, j :: 0 <= i < j < |ts| ==> ts[i].distance <= ts[j].distance
  }

  /** The first UP adjacency with that neighbour. */
  function AdjacencyTo(adjs: seq<Adjacency>, id: string): Option<Adjacency> {
    if adjs == [] then None
    else if adjs[0].state == UP && NeighborId(adjs[0]) == id then Some(adjs[0])
    else AdjacencyTo(adjs[1..], id)
  }

  // ----- The result -----------------------------------------------------------------------

  ghost predicate HasEdge(g: Graph, u: string, v: string) {
    exists m: nat :: Edge(u, v, m) in g
  }

  /** paths[j] is the first settled system with a link to v. */
  ghost predicate FirstPredecessor(g: Graph, paths: seq<Triple>, v: string, j: int) {
    && 0 <= j < |paths|
    && HasEdge(g, paths[j].systemID, v)
    && forall i :: 0 <= i < j ==> !HasEdge(g, paths[i].systemID, v)
  }

  /** The next hop recorded for t: the adjacency itself when we have one with t,
      otherwise the next hop of the system that first had a link to t. */
  ghost predicate HopRule(g: Graph, adjs: seq<Adjacency>, paths: seq<Triple>, t: Triple) {
    exists j ::
      && FirstPredecessor(g, paths, t.systemID, j)
      && t.adj == if j == 0 then AdjacencyTo(adjs, t.systemID) else paths[j].adj
  }

  /** Everything computeSPF delivers in `paths`. */
  ghost predicate IsSpfResult(g: Graph, local: string, adjs: seq<Adjacency>, paths: seq<Triple>) {
    && paths != [] && paths[0] == Triple(local, 0, None)
    && Distinct(paths) && Sorted(paths)
    && (forall i :: 0 <= i < |paths| ==> IsDistance(g, local, paths[i].systemID, paths[i].distance))
    && (forall v :: Reachable(g, local, v) ==> InList(paths, v))
    && (forall i :: 1 <= i < |paths| ==> HopRule(g, adjs, paths[..i], paths[i]))
  }

  // ----- The loop invariant -----------------------------------------------------------------

  /** v is settled, or tentative at no more than d. */
  ghost predicate Covered(paths: seq<Triple>, tent: seq<Triple>, v: string, d: int) {
    InList(paths, v) || exists k :: 0 <= k < |tent| && tent[k].systemID == v && tent[k].distance <= d
  }

  /** Every link out of a settled system, apart from those in `open`, has been relaxed. */
  ghost predicate Relaxed(g: Graph, paths: seq<Triple>, tent: seq<Triple>, open: set<Edge>) {
    forall i, e :: 0 <= i < |paths| && e in g && e !in open && e.from == paths[i].systemID ==>
      Covered(paths, tent, e.to, paths[i].distance + e.metric)
  }

  /** k * m, by repeated addition: k links of metric at most m. */
  ghost function Times(k: nat, m: nat): nat {
    if k == 0 then 0 else Times(k - 1, m) + m
  }

  lemma {:induction false} TimesIsProduct(k: nat, m: nat)
    ensures Times(k, m) == k * m
  {
    if k > 0 {
      TimesIsProduct(k - 1, m);
      assert k * m == (k - 1) * m + m;
    }
  }

  ghost predicate Settled(g: Graph, local: string, adjs: seq<Adjacency>, paths: seq<Triple>, m: nat) {
    && paths != [] && paths[0] == Triple(local, 0, None)
    && Sorted(paths)
    && (forall i :: 0 <= i < |paths| ==>
          IsDistance(g, local, paths[i].systemID, paths[i].distance) && paths[i].distance <= Times(i, m))
    && (forall i :: 1 <= i < |paths| ==> HopRule(g, adjs, paths[..i], paths[i]))
  }

  ghost predicate Tentative(g: Graph, local: string, adjs: seq<Adjacency>, paths: seq<Triple>, t: Triple, m: nat) {
    && paths != []
    && Attained(g, local, t.systemID, t.distance)
    && paths[|paths| - 1].distance <= t.distance <= Times(|paths|, m)
    && HopRule(g, adjs, paths, t)
  }

  ghost predicate SpfInv(g: Graph, local: string, adjs: seq<Adjacency>, m: nat,
                      paths: seq<Triple>, tent: seq<Triple>, open: set<Edge>)
  {
    && Distinct(paths + tent)
    && Settled(g, local, adjs, paths, m)
    && (forall k :: 0 <= k < |tent| ==> Tentative(g, local, adjs, paths, tent[k], m))
    && Relaxed(g, paths, tent, open)
  }

  // ----- Nothing is missed ---------------------------------------------------------------------

  /** A walk that leaves the settled systems passes a tentative one no farther away. */
  lemma {:induction false} Frontier(g: Graph, local: string, adjs: seq<Adjacency>, m: nat,
                                    paths: seq<Triple>, tent: seq<Triple>, v: string, w: seq<Edge>)
    requires SpfInv(g, local, adjs, m, paths, tent, {})
    requires Walk(g, local, v, w) && !InList(paths, v)
    ensures exists k :: 0 <= k < |tent| && tent[k].distance <= Cost(w)
    decreases |w|
  {
    assert InList(paths, local) by { assert paths[0].systemID == local; }
    if w != [] {
      var x, e := w[..|w| - 1], w[|w| - 1];
      WalkInit(g, local, v, w);
      if InList(paths, e.from) {
        var i :| 0 <= i < |paths| && paths[i].systemID == e.from;
        assert paths[i].distance <= Cost(x);
        assert Covered(paths, tent, e.to, paths[i].distance + e.metric);
      } else {
        Frontier(g, local, adjs, m, paths, tent, e.from, x);
      }
    }
  }

  /** With nothing tentative left, every reachable system is settled. */
  lemma Exhausted(g: Graph, local: string, adjs: seq<Adjacency>, m: nat, paths: seq<Triple>)
    requires SpfInv(g, local, adjs, m, paths, [], {})
    ensures IsSpfResult(g, local, adjs, paths)
  {
    assert paths + [] == paths;
    forall v | Reachable(g, local, v)
      ensures InList(paths, v)
    {
      var w :| Walk(g, local, v, w);
      if !InList(paths, v) {
        Frontier(g, local, adjs, m, paths, [], v, w);
      }
    }
  }

  // ----- Settling the closest tentative system ------------------------------------------------------

  lemma HopRuleGrows(g: Graph, adjs: seq<Adjacency>, paths: seq<Triple>, x: Triple, t: Triple)
    requires HopRule(g, adjs, paths, t)
    ensures HopRule(g, adjs, paths + [x], t)
  {
    var j :| FirstPredecessor(g, paths, t.systemID, j) && t.adj == if j == 0 then AdjacencyTo(adjs, t.systemID) else paths[j].adj;
    assert FirstPredecessor(g, paths + [x], t.systemID, j);
  }

  ghost predicate IsClosest(tent: seq<Triple>, b: int) {
    0 <= b < |tent| && forall k :: 0 <= k < |tent| ==> tent[b].distance <= tent[k].distance
  }

  function Without(tent: seq<Triple>, b: int): seq<Triple>
    requires 0 <= b < |tent|
  {
    tent[..b] + tent[b + 1..]
  }

  ghost function LinksFrom(g: Graph, u: string): set<Edge> {
    set e | e in g && e.from == u
  }

  lemma DistinctParts(paths: seq<Triple>, tent: seq<Triple>)
    requires Distinct(paths + tent)
    ensures Distinct(paths)
    ensures forall k :: 0 <= k < |tent| ==> !InList(paths, tent[k].systemID)
  {
    var both := paths + tent;
    assert forall i :: 0 <= i < |paths| ==> paths[i] == both[i];
    assert forall k :: 0 <= k < |tent| ==> tent[k] == both[|paths| + k];
  }

  lemma ClosestIsExact(g: Graph, local: string, adjs: seq<Adjacency>, m: nat,
                       paths: seq<Triple>, tent: seq<Triple>, b: int)
    requires SpfInv(g, local, adjs, m, paths, tent, {}) && IsClosest(tent, b)
    ensures IsDistance(g, local, tent[b].systemID, tent[b].distance)
  {
    var x := tent[b];
    assert Tentative(g, local, adjs, paths, x, m);
    DistinctParts(paths, tent);
    forall w | Walk(g, local, x.systemID, w)
      ensures x.distance <= Cost(w)
    {
      Frontier(g, local, adjs, m, paths, tent, x.systemID, w);
    }
  }

  lemma SortedSnoc(ts: seq<Triple>, x: Triple)
    requires Sorted(ts) && ts != [] && ts[|ts| - 1].distance <= x.distance
    ensures Sorted(ts + [x])
  {
    assert forall i :: 0 <= i < |ts| ==> ts[i].distance <= ts[|ts| - 1].distance;
  }

  lemma DistancesSnoc(g: Graph, local: string, paths: seq<Triple>, x: Triple)
    requires forall i :: 0 <= i < |paths| ==> IsDistance(g, local, paths[i].systemID, paths[i].distance)
    requires IsDistance(g, local, x.systemID, x.distance)
    ensures var ps := paths + [x]; forall i :: 0 <= i < |ps| ==> IsDistance(g, local, ps[i].systemID, ps[i].distance)
  {
    var ps := paths + [x];
    forall i | 0 <= i < |ps| ensures IsDistance(g, local, ps[i].systemID, ps[i].distance) {
      assert ps[i] == if i < |paths| then paths[i] else x;
    }
  }

  lemma BoundsSnoc(paths: seq<Triple>, m: nat, x: Triple)
    requires forall i :: 0 <= i < |paths| ==> paths[i].distance <= Times(i, m)
    requires x.distance <= Times(|paths|, m)
    ensures var ps := paths + [x]; forall i :: 0 <= i < |ps| ==> ps[i].distance <= Times(i, m)
  {
    var ps := paths + [x];
    forall i | 0 <= i < |ps| ensures ps[i].distance <= Times(i, m) {
      assert ps[i] == if i < |paths| then paths[i] else x;
    }
  }

  lemma SettledHops(g: Graph, adjs: seq<Adjacency>, paths: seq<Triple>, x: Triple)
    requires forall i :: 1 <= i < |paths| ==> HopRule(g, adjs, paths[..i], paths[i])
    requires HopRule(g, adjs, paths, x)
    ensures var ps := paths + [x]; forall i :: 1 <= i < |ps| ==> HopRule(g, adjs, ps[..i], ps[i])
  {
    var ps := paths + [x];
    forall i | 1 <= i < |ps|
      ensures HopRule(g, adjs, ps[..i], ps[i])
    {
      if i < |paths| {
        assert ps[..i] == paths[..i];
        assert ps[i] == paths[i];
      } else {
        assert ps[..i] == paths;
        assert ps[i] == x;
      }
    }
  }

  lemma SettledGrows(g: Graph, local: string, adjs: seq<Adjacency>, m: nat, paths: seq<Triple>, x: Triple)
    requires Settled(g, local, adjs, paths, m) && Tentative(g, local, adjs, paths, x, m)
    requires IsDistance(g, local, x.systemID, x.distance)
    ensures Settled(g, local, adjs, paths + [x], m)
  {
    SortedSnoc(paths, x);
    DistancesSnoc(g, local, paths, x);
    BoundsSnoc(paths, m, x);
    SettledHops(g, adjs, paths, x);
  }

  lemma DistinctMoved(paths: seq<Triple>, tent: seq<Triple>, b: int)
    requires Distinct(paths + tent) && 0 <= b < |tent|
    ensures Distinct((paths + [tent[b]]) + Without(tent, b))
  {
    var before, moved := paths + tent, (paths + [tent[b]]) + Without(tent, b);
    var n := |paths|;
    forall i, j | 0 <= i < j < |moved|
      ensures moved[i].systemID != moved[j].systemID
    {
      var i' := if i < n then i else if i == n then n + b else if i <= n + b then i - 1 else i;
      var j' := if j < n then j else if j == n then n + b else if j <= n + b then j - 1 else j;
      assert moved[i] == before[i'] && moved[j] == before[j'];
    }
  }

  lemma StaysTentative(g: Graph, local: string, adjs: seq<Adjacency>, m: nat, paths: seq<Triple>, x: Triple, t: Triple)
    requires Tentative(g, local, adjs, paths, t, m) && x.distance <= t.distance
    ensures Tentative(g, local, adjs, paths + [x], t, m)
  {
    var ps := paths + [x];
    assert ps[|ps| - 1] == x && |ps| == |paths| + 1;
    HopRuleGrows(g, adjs, paths, x, t);
  }

  lemma TentativeAfterMove(g: Graph, local: string, adjs: seq<Adjacency>, m: nat,
                           paths: seq<Triple>, tent: seq<Triple>, b: int)
    requires IsClosest(tent, b) && forall k :: 0 <= k < |tent| ==> Tentative(g, local, adjs, paths, tent[k], m)
    ensures var rest := Without(tent, b);
      forall k :: 0 <= k < |rest| ==> Tentative(g, local, adjs, paths + [tent[b]], rest[k], m)
  {
    var rest := Without(tent, b);
    forall k | 0 <= k < |rest|
      ensures Tentative(g, local, adjs, paths + [tent[b]], rest[k], m)
    {
      var i := if k < b then k else k + 1;
      assert rest[k] == tent[i];
      StaysTentative(g, local, adjs, m, paths, tent[b], tent[i]);
    }
  }

  /** Moving the closest tentative system to paths keeps the invariant, with its own
      links still to be relaxed. */
  lemma SettleClosest(g: Graph, local: string, adjs: seq<Adjacency>, m: nat,
                      paths: seq<Triple>, tent: seq<Triple>, b: int)
    requires SpfInv(g, local, adjs, m, paths, tent, {}) && IsClosest(tent, b)
    ensures SpfInv(g, local, adjs, m, paths + [tent[b]], Without(tent, b), LinksFrom(g, tent[b].systemID))
  {
    assert Tentative(g, local, adjs, paths, tent[b], m);
    ClosestIsExact(g, local, adjs, m, paths, tent, b);
    SettledGrows(g, local, adjs, m, paths, tent[b]);
    DistinctMoved(paths, tent, b);
    TentativeAfterMove(g, local, adjs, m, paths, tent, b);
    RelaxedAfterMove(g, paths, tent, b);
  }

  lemma RelaxedAfterMove(g: Graph, paths: seq<Triple>, tent: seq<Triple>, b: int)
    requires Relaxed(g, paths, tent, {}) && 0 <= b < |tent|
    ensures Relaxed(g, paths + [tent[b]], Without(tent, b), LinksFrom(g, tent[b].systemID))
  {
    var ps := paths + [tent[b]];
    forall i, e | 0 <= i < |ps| && e in g && e !in LinksFrom(g, tent[b].systemID) && e.from == ps[i].systemID
      ensures Covered(ps, Without(tent, b), e.to, ps[i].distance + e.metric)
    {
      assert i < |paths|;
      CoveredAfterMove(paths, tent, b, e.to, paths[i].distance + e.metric);
    }
  }

  lemma CoveredAfterMove(paths: seq<Triple>, tent: seq<Triple>, b: int, v: string, d: int)
    requires 0 <= b < |tent| && Covered(paths, tent, v, d)
    ensures Covered(paths + [tent[b]], Without(tent, b), v, d)
  {
    var ps, rest := paths + [tent[b]], Without(tent, b);
    if InList(paths, v) {
      var i :| 0 <= i < |paths| && paths[i].systemID == v;
      assert ps[i].systemID == v;
    } else {
      var k :| 0 <= k < |tent| && tent[k].systemID == v && tent[k].distance <= d;
      if k == b { assert ps[|paths|].systemID == v; }
      else if k < b { assert rest[k] == tent[k]; }
      else { assert rest[k - 1] == tent[k]; }
    }
  }

  // ----- Relaxing one link ----------------------------------------------------------------------

  function Lower(t: Triple, id: string, d: uint32): Triple {
    if t.systemID == id && d < t.distance then t.(distance := d) else t
  }

  /** addAdjToTent: ignored if settled, lowered if tentative (keeping the next hop
      first recorded), appended otherwise. The sum is a uint32 sum. */
  function AddToTent(dist: uint32, adj: Option<Adjacency>, n: Neighbor, tent: seq<Triple>, paths: seq<Triple>): seq<Triple> {
    if InList(paths, n.systemID) then tent
    else if InList(tent, n.systemID) then
      seq(|tent|, k requires 0 <= k < |tent| => Lower(tent[k], n.systemID, AddUint32(n.metric, dist)))
    else tent + [Triple(n.systemID, AddUint32(n.metric, dist), adj)]
  }

  /** AddToTent when the sum d does not wrap. */
  lemma AddToTentCases(dist: uint32, adj: Option<Adjacency>, n: Neighbor, tent: seq<Triple>, paths: seq<Triple>, d: uint32)
    requires d == dist + n.metric <= MAX_UINT32 && !InList(paths, n.systemID)
    ensures var t' := AddToTent(dist, adj, n, tent, paths);
      if InList(tent, n.systemID)
      then |t'| == |tent| && forall k :: 0 <= k < |tent| ==> t'[k] == Lower(tent[k], n.systemID, d)
      else t' == tent + [Triple(n.systemID, d, adj)]
  {
    AddUint32Fits(n.metric, dist);
  }

  lemma CoveredIsKept(dist: uint32, adj: Option<Adjacency>, n: Neighbor, tent: seq<Triple>, paths: seq<Triple>,
                      v: string, d: int)
    requires Covered(paths, tent, v, d)
    ensures Covered(paths, AddToTent(dist, adj, n, tent, paths), v, d)
  {
    if !InList(paths, v) {
      var k :| 0 <= k < |tent| && tent[k].systemID == v && tent[k].distance <= d;
      var t' := AddToTent(dist, adj, n, tent, paths);
      assert t'[k].systemID == v && t'[k].distance <= d;
    }
  }

  lemma NowCovered(dist: uint32, adj: Option<Adjacency>, n: Neighbor, tent: seq<Triple>, paths: seq<Triple>)
    requires dist + n.metric < 0x1_0000_0000
    ensures Covered(paths, AddToTent(dist, adj, n, tent, paths), n.systemID, dist + n.metric)
  {
    var t' := AddToTent(dist, adj, n, tent, paths);
    if InList(paths, n.systemID) {
    } else if InList(tent, n.systemID) {
      var k :| 0 <= k < |tent| && tent[k].systemID == n.systemID;
      assert t'[k].systemID == n.systemID && t'[k].distance <= dist + n.metric;
    } else {
      assert t'[|tent|].systemID == n.systemID;
    }
  }

  lemma AttainedVia(g: Graph, local: string, e: Edge, d: int)
    requires e in g && Attained(g, local, e.from, d)
    ensures Attained(g, local, e.to, d + e.metric)
  {
    var w :| Walk(g, local, e.from, w) && Cost(w) == d;
    WalkSnoc(g, local, w, e);
  }

  /** A system not met before was first linked to by the one settled last. */
  lemma NewEntryHop(g: Graph, adjs: seq<Adjacency>, paths: seq<Triple>, tent: seq<Triple>, open: set<Edge>, e: Edge, t: Triple)
    requires Distinct(paths) && Relaxed(g, paths, tent, open) && |paths| >= 2
    requires e in g && e.from == paths[|paths| - 1].systemID && t.systemID == e.to
    requires open <= LinksFrom(g, e.from)
    requires !InList(paths, e.to) && !InList(tent, e.to)
    requires t.adj == paths[|paths| - 1].adj
    ensures HopRule(g, adjs, paths, t)
  {
    var j := |paths| - 1;
    assert e == Edge(paths[j].systemID, e.to, e.metric);
    forall i | 0 <= i < j
      ensures !HasEdge(g, paths[i].systemID, e.to)
    {
    }
    assert FirstPredecessor(g, paths, e.to, j);
  }

  /** The room left in a uint32 while some system is not settled. */
  lemma SumFits(g: Graph, local: string, adjs: seq<Adjacency>, m: nat, paths: seq<Triple>, e: Edge)
    requires Settled(g, local, adjs, paths, m) && Distinct(paths) && MetricsAtMost(g, m)
    requires (|Systems(g, local)| - 1) * m < MAX_UINT32
    requires e in g && e.from == paths[|paths| - 1].systemID && !InList(paths, e.to)
    ensures paths[|paths| - 1].distance + e.metric <= Times(|paths|, m) < MAX_UINT32
  {
    RoomLeft(g, local, adjs, m, paths, e.to);
  }

  lemma RoomLeft(g: Graph, local: string, adjs: seq<Adjacency>, m: nat, paths: seq<Triple>, v: string)
    requires Settled(g, local, adjs, paths, m) && Distinct(paths)
    requires (|Systems(g, local)| - 1) * m < MAX_UINT32
    requires v in Systems(g, local) && !InList(paths, v)
    ensures |paths| < |Systems(g, local)| && Times(|paths|, m) < MAX_UINT32
  {
    forall i | 0 <= i < |paths|
      ensures paths[i].systemID in Systems(g, local) - {v}
    {
      SettledInSystems(g, local, paths[i].systemID, paths[i].distance);
    }
    CountDistinct(paths, Systems(g, local) - {v});
    TimesFits(|paths|, |Systems(g, local)|, m);
  }

  lemma TimesFits(k: nat, n: nat, m: nat)
    requires k < n && (n - 1) * m < MAX_UINT32
    ensures Times(k, m) < MAX_UINT32
  {
    TimesIsProduct(k, m);
    assert k * m <= (n - 1) * m;
  }

  lemma SettledInSystems(g: Graph, local: string, v: string, d: int)
    requires Attained(g, local, v, d)
    ensures v in Systems(g, local)
  {
    var w :| Walk(g, local, v, w) && Cost(w) == d;
    if w != [] {
      assert w[|w| - 1] in g;
    }
  }

  lemma {:induction false} CountDistinct(ts: seq<Triple>, s: set<string>)
    requires Distinct(ts) && forall i :: 0 <= i < |ts| ==> ts[i].systemID in s
    ensures |ts| <= |s|
  {
    if ts != [] {
      var last := ts[|ts| - 1].systemID;
      CountDistinct(ts[..|ts| - 1], s - {last});
    }
  }

  /** The tentative list after relaxing one link of the system settled last. */
  lemma NewIsTentative(g: Graph, local: string, adjs: seq<Adjacency>, m: nat, paths: seq<Triple>,
                       tent: seq<Triple>, open: set<Edge>, e: Edge, t: Triple)
    requires Distinct(paths) && Relaxed(g, paths, tent, open) && |paths| >= 2
    requires e in g && e.from == paths[|paths| - 1].systemID && open <= LinksFrom(g, e.from)
    requires !InList(paths, e.to) && !InList(tent, e.to)
    requires t.systemID == e.to && t.adj == paths[|paths| - 1].adj
    requires Attained(g, local, e.to, t.distance)
    requires paths[|paths| - 1].distance <= t.distance <= Times(|paths|, m)
    ensures Tentative(g, local, adjs, paths, t, m)
  {
    NewEntryHop(g, adjs, paths, tent, open, e, t);
  }

  lemma AddKeepsTentative(g: Graph, local: string, adjs: seq<Adjacency>, m: nat,
                          paths: seq<Triple>, tent: seq<Triple>, open: set<Edge>, n: Neighbor)
    requires SpfInv(g, local, adjs, m, paths, tent, open) && |paths| >= 2
    requires MetricsAtMost(g, m) && (|Systems(g, local)| - 1) * m < MAX_UINT32
    requires var u := paths[|paths| - 1];
      Edge(u.systemID, n.systemID, n.metric) in g && open <= LinksFrom(g, u.systemID)
    ensures var u := paths[|paths| - 1]; var t' := AddToTent(u.distance, u.adj, n, tent, paths);
      forall k :: 0 <= k < |t'| ==> Tentative(g, local, adjs, paths, t'[k], m)
  {
    var u := paths[|paths| - 1];
    var e := Edge(u.systemID, n.systemID, n.metric);
    var t' := AddToTent(u.distance, u.adj, n, tent, paths);
    DistinctParts(paths, tent);
    if !InList(paths, n.systemID) {
      SumFits(g, local, adjs, m, paths, e);
      AttainedVia(g, local, e, u.distance);
      var d: uint32 := u.distance + n.metric;
      AddToTentCases(u.distance, u.adj, n, tent, paths, d);
      if InList(tent, n.systemID) {
        LoweredAreTentative(g, local, adjs, m, paths, tent, t', n.systemID, d);
      } else {
        NewIsTentative(g, local, adjs, m, paths, tent, open, e, Triple(n.systemID, d, u.adj));
      }
    }
  }

  lemma LoweredIsTentative(g: Graph, local: string, adjs: seq<Adjacency>, m: nat, paths: seq<Triple>,
                           t: Triple, id: string, d: uint32)
    requires Tentative(g, local, adjs, paths, t, m)
    requires Attained(g, local, id, d) && paths[|paths| - 1].distance <= d <= Times(|paths|, m)
    ensures Tentative(g, local, adjs, paths, Lower(t, id, d), m)
  {
    SameHop(g, adjs, paths, t, Lower(t, id, d));
  }

  lemma LoweredAreTentative(g: Graph, local: string, adjs: seq<Adjacency>, m: nat, paths: seq<Triple>,
                            tent: seq<Triple>, t': seq<Triple>, id: string, d: uint32)
    requires forall k :: 0 <= k < |tent| ==> Tentative(g, local, adjs, paths, tent[k], m)
    requires paths != [] && Attained(g, local, id, d) && paths[|paths| - 1].distance <= d <= Times(|paths|, m)
    requires |t'| == |tent| && forall k :: 0 <= k < |tent| ==> t'[k] == Lower(tent[k], id, d)
    ensures forall k :: 0 <= k < |t'| ==> Tentative(g, local, adjs, paths, t'[k], m)
  {
    forall k | 0 <= k < |t'| ensures Tentative(g, local, adjs, paths, t'[k], m) {
      LoweredIsTentative(g, local, adjs, m, paths, tent[k], id, d);
    }
  }

  lemma SameHop(g: Graph, adjs: seq<Adjacency>, paths: seq<Triple>, t: Triple, t': Triple)
    requires HopRule(g, adjs, paths, t) && t'.systemID == t.systemID && t'.adj == t.adj
    ensures HopRule(g, adjs, paths, t')
  {
  }

  lemma AddKeepsDistinct(dist: uint32, adj: Option<Adjacency>, n: Neighbor, tent: seq<Triple>, paths: seq<Triple>)
    requires Distinct(paths + tent)
    ensures Distinct(paths + AddToTent(dist, adj, n, tent, paths))
  {
    var t' := AddToTent(dist, adj, n, tent, paths);
    var before, moved := paths + tent, paths + t';
    forall i | 0 <= i < |before|
      ensures moved[i].systemID == before[i].systemID
    {
    }
    if |t'| > |tent| {
      forall i | 0 <= i < |before|
        ensures before[i].systemID != n.systemID
      {
        if i < |paths| { assert paths[i].systemID == before[i].systemID; }
        else { assert tent[i - |paths|].systemID == before[i].systemID; }
      }
    }
  }

  /** One call of addAdjToTent closes one open link. */
  lemma AddKeepsInv(g: Graph, local: string, adjs: seq<Adjacency>, m: nat,
                    paths: seq<Triple>, tent: seq<Triple>, open: set<Edge>, n: Neighbor)
    requires SpfInv(g, local, adjs, m, paths, tent, open) && |paths| >= 2
    requires MetricsAtMost(g, m) && (|Systems(g, local)| - 1) * m < MAX_UINT32
    requires var u := paths[|paths| - 1];
      Edge(u.systemID, n.systemID, n.metric) in g && open <= LinksFrom(g, u.systemID)
    ensures var u := paths[|paths| - 1];
      SpfInv(g, local, adjs, m, paths, AddToTent(u.distance, u.adj, n, tent, paths),
          open - {Edge(u.systemID, n.systemID, n.metric)})
  {
    var u := paths[|paths| - 1];
    var link := Edge(u.systemID, n.systemID, n.metric);
    var t' := AddToTent(u.distance, u.adj, n, tent, paths);
    AddKeepsTentative(g, local, adjs, m, paths, tent, open, n);
    AddKeepsDistinct(u.distance, u.adj, n, tent, paths);
    DistinctParts(paths, tent);
    forall i, e | 0 <= i < |paths| && e in g && e !in open - {link} && e.from == paths[i].systemID
      ensures Covered(paths, t', e.to, paths[i].distance + e.metric)
    {
      if e == link {
        assert i == |paths| - 1;
        if !InList(paths, n.systemID) {
          SumFits(g, local, adjs, m, paths, e);
          NowCovered(u.distance, u.adj, n, tent, paths);
        }
      } else {
        CoveredIsKept(u.distance, u.adj, n, tent, paths, e.to, paths[i].distance + e.metric);
      }
    }
  }

  // ----- Equal metrics -----------------------------------------------------------------------

  /** With equal metrics no tentative system is more than one metric beyond the system
      settled last. */
  lemma UniformSpan(g: Graph, local: string, adjs: seq<Adjacency>, bound: nat, paths: seq<Triple>, tent: seq<Triple>,
                    m: nat, k: nat)
    requires SpfInv(g, local, adjs, bound, paths, tent, {}) && Uniform(g, m) && k < |tent|
    ensures paths[|paths| - 1].distance <= tent[k].distance <= paths[|paths| - 1].distance + m
  {
    assert Tentative(g, local, adjs, paths, tent[k], bound);
    var v := tent[k].systemID;
    var j :| FirstPredecessor(g, paths, v, j);
    var mj: nat :| Edge(paths[j].systemID, v, mj) in g;
    TentativeIsCovered(g, paths, tent, Edge(paths[j].systemID, v, mj), j, k);
    UniformMetric(g, m, Edge(paths[j].systemID, v, mj));
    NoneBeyondLast(paths, j);
  }

  lemma UniformMetric(g: Graph, m: nat, e: Edge)
    requires Uniform(g, m) && e in g
    ensures e.metric == m
  {
  }

  lemma NoneBeyondLast(paths: seq<Triple>, j: nat)
    requires Sorted(paths) && j < |paths|
    ensures paths[j].distance <= paths[|paths| - 1].distance
  {
  }

  lemma TentativeIsCovered(g: Graph, paths: seq<Triple>, tent: seq<Triple>, e: Edge, j: nat, k: nat)
    requires Relaxed(g, paths, tent, {}) && Distinct(paths + tent)
    requires e in g && j < |paths| && e.from == paths[j].systemID && k < |tent| && e.to == tent[k].systemID
    ensures tent[k].distance <= paths[j].distance + e.metric
  {
    DistinctParts(paths, tent);
    assert Covered(paths, tent, e.to, paths[j].distance + e.metric);
    var i :| 0 <= i < |tent| && tent[i].systemID == e.to && tent[i].distance <= paths[j].distance + e.metric;
    assert (paths + tent)[|paths| + i] == tent[i] && (paths + tent)[|paths| + k] == tent[k];
  }

  /** Within that span addAdjToTent lowers no distance: it adds an entry or changes nothing. */
  lemma NothingLowered(dist: uint32, adj: Option<Adjacency>, n: Neighbor, tent: seq<Triple>, paths: seq<Triple>)
    requires dist + n.metric <= MAX_UINT32 && forall k :: 0 <= k < |tent| ==> tent[k].distance <= dist + n.metric
    ensures var t' := AddToTent(dist, adj, n, tent, paths);
      && (t' == tent || t' == tent + [Triple(n.systemID, dist + n.metric, adj)])
      && forall k :: 0 <= k < |t'| ==> t'[k].distance <= dist + n.metric
  {
    if !InList(paths, n.systemID) {
      var d: uint32 := dist + n.metric;
      AddToTentCases(dist, adj, n, tent, paths, d);
    }
  }

  /** With equal metrics no distance in the list is more than one metric beyond d. */
  ghost predicate Spanned(g: Graph, tent: seq<Triple>, d: int) {
    forall m: nat, k :: Uniform(g, m) && 0 <= k < |tent| ==> tent[k].distance <= d + m
  }

  /** The span holds when the relaxing of a newly settled system begins, */
  lemma SpanAfterSettle(g: Graph, local: string, adjs: seq<Adjacency>, bound: nat, paths: seq<Triple>, tent: seq<Triple>, b: int)
    requires SpfInv(g, local, adjs, bound, paths, tent, {}) && IsClosest(tent, b)
    ensures Spanned(g, Without(tent, b), tent[b].distance)
  {
    forall m: nat, k | Uniform(g, m) && 0 <= k < |tent| ensures tent[k].distance <= tent[b].distance + m {
      SpanOfTwo(g, local, adjs, bound, paths, tent, m, b, k);
    }
    SpanOfRest(g, tent, b, tent[b].distance);
  }

  lemma SpanOfRest(g: Graph, tent: seq<Triple>, b: int, d: int)
    requires Spanned(g, tent, d) && 0 <= b < |tent|
    ensures Spanned(g, Without(tent, b), d)
  {
    var rest := Without(tent, b);
    forall m: nat, k | Uniform(g, m) && 0 <= k < |rest| ensures rest[k].distance <= d + m {
      assert rest[k] == tent[if k < b then k else k + 1];
    }
  }

  lemma SpanOfTwo(g: Graph, local: string, adjs: seq<Adjacency>, bound: nat, paths: seq<Triple>, tent: seq<Triple>,
                  m: nat, b: nat, k: nat)
    requires SpfInv(g, local, adjs, bound, paths, tent, {}) && Uniform(g, m) && b < |tent| && k < |tent|
    ensures tent[k].distance <= tent[b].distance + m
  {
    UniformSpan(g, local, adjs, bound, paths, tent, m, k);
    UniformSpan(g, local, adjs, bound, paths, tent, m, b);
  }

  /** and each call of addAdjToTent keeps it and lowers nothing. */
  lemma UniformRelax(g: Graph, local: string, adjs: seq<Adjacency>, bound: nat,
                     paths: seq<Triple>, tent: seq<Triple>, n: Neighbor)
    requires Settled(g, local, adjs, paths, bound) && Distinct(paths) && MetricsAtMost(g, bound)
    requires (|Systems(g, local)| - 1) * bound < MAX_UINT32
    requires Edge(paths[|paths| - 1].systemID, n.systemID, n.metric) in g && Spanned(g, tent, paths[|paths| - 1].distance)
    ensures var u := paths[|paths| - 1]; var t' := AddToTent(u.distance, u.adj, n, tent, paths);
      Spanned(g, t', u.distance) && ((exists m: nat :: Uniform(g, m)) ==> tent <= t')
  {
    var u := paths[|paths| - 1];
    if !InList(paths, n.systemID) && exists m: nat :: Uniform(g, m) {
      var e := Edge(u.systemID, n.systemID, n.metric);
      SumFits(g, local, adjs, bound, paths, e);
      assert forall m: nat :: Uniform(g, m) ==> e.metric == m;
      NothingLowered(u.distance, u.adj, n, tent, paths);
    }
  }
}
