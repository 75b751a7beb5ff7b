/** The decision process around computeSPF: reading the LSP tree, and writing the
    settled systems into the topology tree. */
module Topology {
  import opened Bytes
  import opened Wrappers
  import opened TlvList
  import opened Lsps
  import opened Interfaces
  import opened Graphs
  import opened Spf
  import opened Decision
  import opened Nodes
  import opened Avl
  import opened Routers
  import T = AvlTree
  import SystemId

  // ----- TopoDB ---------------------------------------------------------------------------

  /** Later paths overwrite earlier ones; systems not settled keep their old entry. */
  ghost function TopoAfter(m: map<nat, Triple>, paths: seq<Triple>): map<nat, Triple> {
    if paths == [] then m
    else TopoAfter(m, paths[..|paths| - 1])[SystemId.Key(paths[|paths| - 1].systemID) := paths[|paths| - 1]]
  }

  method InsertPaths(topo: AvlNode?<Triple>, paths: seq<Triple>) returns (r: AvlNode?<Triple>)
    requires IsTree(topo) && T.IsAvl(TreeOf(topo))
    modifies ReprOf(topo)
    ensures IsTree(r) && T.IsAvl(TreeOf(r)) && fresh(ReprOf(r) - old(ReprOf(topo)))
    ensures T.ToMap(TreeOf(r)) == TopoAfter(old(T.ToMap(TreeOf(topo))), paths)
  {
    r := topo;
    for i := 0 to |paths|
      invariant IsTree(r) && T.IsAvl(TreeOf(r)) && fresh(ReprOf(r) - old(ReprOf(topo)))
      invariant T.ToMap(TreeOf(r)) == TopoAfter(old(T.ToMap(TreeOf(topo))), paths[..i])
    {
      assert paths[..i + 1][..i] == paths[..i];
      T.InsertRefinesMap(TreeOf(r), SystemId.Key(paths[i].systemID), paths[i], true);
      r := AvlInsert(r, SystemId.Key(paths[i].systemID), paths[i], true);
    }
    assert paths[..|paths|] == paths;
  }

  ghost predicate AllCanonical(paths: seq<Triple>) {
    forall i :: 0 <= i < |paths| ==> SystemId.Canonical(paths[i].systemID)
  }

  /** After SPF, the topology tree answers a system ID with its settled triple if it was
      settled, and otherwise with whatever was there before. */
  lemma {:induction false} TopoAgrees(m: map<nat, Triple>, paths: seq<Triple>, id: string)
    requires Distinct(paths) && AllCanonical(paths) && SystemId.Canonical(id)
    ensures var t := TopoAfter(m, paths); var k := SystemId.Key(id);
      && (forall i :: 0 <= i < |paths| && paths[i].systemID == id ==> k in t && t[k] == paths[i])
      && (!InList(paths, id) ==> (k in t <==> k in m) && (k in m ==> t[k] == m[k]))
  {
    if paths != [] {
      var init, last := paths[..|paths| - 1], paths[|paths| - 1];
      TopoAgrees(m, init, id);
      assert forall i :: 0 <= i < |init| ==> init[i] == paths[i];
      if SystemId.Key(last.systemID) == SystemId.Key(id) {
        SystemId.KeyInjective(last.systemID, id);
      }
    }
  }

  lemma DecodedNameIsCanonical(t: Tlv, i: nat)
    requires Readable(t) && i < NeighborCount(t)
    ensures SystemId.Canonical(NeighborAt(t, i).systemID)
  {
    var b := 1 + 11 * i;
    SystemId.TextIsCanonical(t.valueTLV[b + 4..b + 10]);
  }

  lemma {:induction false} ListedNamesAreCanonical(ts: seq<Tlv>, n: Neighbor)
    requires AllReadable(ts) && n in LookupNeighbors(ts)
    ensures SystemId.Canonical(n.systemID)
  {
    if ts[0].typeTLV == NEIGHBORS_TLV {
      var i :| 0 <= i < |Neighbors(ts[0])| && Neighbors(ts[0])[i] == n;
      DecodedNameIsCanonical(ts[0], i);
    } else {
      ListedNamesAreCanonical(ts[1..], n);
    }
  }

  lemma LinkEndsAreCanonical(local: string, adjs: seq<Adjacency>, lsps: seq<Lsp>, e: Edge)
    requires forall l :: l in lsps ==> AllReadable(l.core.tlvs)
    requires e in GraphOf(local, adjs, lsps)
    ensures SystemId.Canonical(e.to)
  {
    if e.from == local {
      LocalLinks(local, adjs, lsps, e);
      var a :| a in adjs && a.state == UP && e == Edge(local, NeighborId(a), a.metric);
      SystemId.TextIsCanonical(a.neighborSystemID);
    } else {
      LinkIsListed(local, adjs, lsps, e);
      var l :| l in lsps && SystemOf(l) == e.from && AsNeighbor(e) in LookupNeighbors(l.core.tlvs);
      ListedNamesAreCanonical(l.core.tlvs, AsNeighbor(e));
    }
  }

  lemma SettledAreCanonical(local: string, adjs: seq<Adjacency>, lsps: seq<Lsp>, paths: seq<Triple>)
    requires SystemId.Canonical(local) && forall l :: l in lsps ==> AllReadable(l.core.tlvs)
    requires IsSpfResult(GraphOf(local, adjs, lsps), local, adjs, paths)
    ensures AllCanonical(paths)
  {
    var g := GraphOf(local, adjs, lsps);
    forall i | 0 <= i < |paths| ensures SystemId.Canonical(paths[i].systemID) {
      SettledInSystems(g, local, paths[i].systemID, paths[i].distance);
      if paths[i].systemID != local {
        var e :| e in g && e.to == paths[i].systemID;
        LinkEndsAreCanonical(local, adjs, lsps, e);
      }
    }
  }

  // ----- Reading the LSP tree ---------------------------------------------------------------

  /** The LSPs of a tree in the order AvlGetAll visits them. */
  ghost function Listing(t: T.Tree<Lsp>): (ls: seq<Lsp>)
    ensures |ls| == |T.InOrder(t)| && forall i :: 0 <= i < |ls| ==> ls[i] == T.InOrder(t)[i].1
  {
    if t.Leaf? then [] else Listing(t.left) + [t.data] + Listing(t.right)
  }

  /** Stored under their own keys, one per system (pseudonode and fragment zero), and
      with neighbour TLVs that can be read. */
  ghost predicate DbOk(db: map<nat, Lsp>) {
    forall k :: k in db ==>
      db[k].key == k && WellKeyed(db[k]) && db[k].lspID[6..] == [0, 0] && AllReadable(db[k].core.tlvs)
  }

  lemma ListingEntry(t: T.Tree<Lsp>, i: nat)
    requires T.IsAvl(t) && DbOk(T.ToMap(t)) && i < |Listing(t)|
    ensures var l := Listing(t)[i]; l.key in T.ToMap(t) && T.ToMap(t)[l.key] == l && T.InOrder(t)[i].0 == l.key
  {
    T.InOrderIsMap(t);
    assert T.InOrder(t)[i] in T.InOrder(t);
  }

  lemma StoredIsListed(t: T.Tree<Lsp>, k: nat)
    requires T.IsAvl(t) && k in T.ToMap(t)
    ensures T.ToMap(t)[k] in Listing(t)
  {
    T.InOrderIsMap(t);
    assert (k, T.ToMap(t)[k]) in T.InOrder(t);
    var i :| 0 <= i < |T.InOrder(t)| && T.InOrder(t)[i] == (k, T.ToMap(t)[k]);
    assert Listing(t)[i] == T.ToMap(t)[k];
  }

  lemma ListingLists(t: T.Tree<Lsp>)
    requires T.IsAvl(t) && DbOk(T.ToMap(t))
    ensures Lists(T.ToMap(t), Listing(t))
  {
    forall i | 0 <= i < |Listing(t)| ensures Listing(t)[i].key in T.ToMap(t) && T.ToMap(t)[Listing(t)[i].key] == Listing(t)[i] {
      ListingEntry(t, i);
    }
    forall k | k in T.ToMap(t) ensures T.ToMap(t)[k] in Listing(t) {
      StoredIsListed(t, k);
    }
  }

  lemma ListingHasOneLocal(t: T.Tree<Lsp>, local: string)
    requires T.IsAvl(t) && DbOk(T.ToMap(t))
    ensures OnlyOneLocal(local, Listing(t))
  {
    T.InOrderIsSorted(t);
    forall i, j | 0 <= i < j < |Listing(t)| && SystemOf(Listing(t)[i]) == local ensures SystemOf(Listing(t)[j]) != local {
      ListingEntry(t, i);
      ListingEntry(t, j);
      if SystemOf(Listing(t)[j]) == local { SameSystemSameKey(Listing(t)[i], Listing(t)[j]); }
    }
  }

  lemma SameSystemSameKey(l: Lsp, m: Lsp)
    requires WellKeyed(l) && WellKeyed(m) && l.lspID[6..] == m.lspID[6..] && SystemOf(l) == SystemOf(m)
    ensures l.key == m.key
  {
    SystemId.TextInjective(l.lspID[..6], m.lspID[..6]);
    assert l.lspID == l.lspID[..6] + l.lspID[6..] && m.lspID == m.lspID[..6] + m.lspID[6..];
  }

  lemma {:induction false} EntryAt<D>(nodes: seq<AvlNode<D>>, i: nat)
    requires i < |nodes|
    ensures Entries(nodes)[i] == (nodes[i].key, nodes[i].data)
  {
    if i < |nodes| - 1 {
      EntryAt(nodes[..|nodes| - 1], i);
    }
  }

  /** The LSPs computeSPF works on. */
  method ReadLsps(root: AvlNode?<Lsp>) returns (lsps: seq<Lsp>)
    requires IsTree(root)
    ensures lsps == Listing(TreeOf(root))
  {
    var nodes := AvlGetAll(root);
    lsps := [];
    for i := 0 to |nodes|
      invariant |lsps| == i && forall j :: 0 <= j < i ==> lsps[j] == nodes[j].data
    {
      lsps := lsps + [nodes[i].data];
    }
    forall i | 0 <= i < |nodes| ensures lsps[i] == Listing(TreeOf(root))[i] {
      EntryAt(nodes, i);
    }
  }

  method ReadAdjacencies(r: Router) returns (adjs: seq<Adjacency>)
    ensures adjs == Adjs(r.Value())
  {
    adjs := [];
    for i := 0 to |r.interfaces|
      invariant |adjs| == i && forall j :: 0 <= j < i ==> adjs[j] == r.interfaces[j].adj
    {
      adjs := adjs + [r.interfaces[i].adj];
    }
  }

  /** The graph a router computes on. */
  ghost function GraphFor(n: Node, lsps: seq<Lsp>): Graph
    requires forall l :: l in lsps ==> AllReadable(l.core.tlvs)
  {
    GraphOf(SystemId.Text(n.sid), Adjs(n), lsps)
  }

  ghost predicate MaySpf(n: Node, lsps: seq<Lsp>, m: nat) {
    && (forall l :: l in lsps ==> AllReadable(l.core.tlvs))
    && NoParallel(SystemId.Text(n.sid), Adjs(n)) && MetricsAtMost(GraphFor(n, lsps), m)
    && (|Systems(GraphFor(n, lsps), SystemId.Text(n.sid))| - 1) * m < MAX_UINT32
  }

  /** What one SPF run of router n over these LSPs must give. */
  ghost predicate SpfOutcome(n: Node, lsps: seq<Lsp>, result: Option<seq<Triple>>) {
    && Lists(n.db, lsps) && (forall l :: l in lsps ==> AllReadable(l.core.tlvs))
    && (result.None? <==> forall i :: 0 <= i < |lsps| ==> SystemOf(lsps[i]) != SystemId.Text(n.sid))
    && (result.Some? ==> IsSpfResult(GraphFor(n, lsps), SystemId.Text(n.sid), Adjs(n), result.value))
  }

  method SpfOn(ghost n: Node, sid: Bytes6, adjs: seq<Adjacency>, lsps: seq<Lsp>, ghost m: nat)
    returns (result: Option<seq<Triple>>)
    requires sid == n.sid && adjs == Adjs(n) && Lists(n.db, lsps) && MaySpf(n, lsps, m)
    requires OnlyOneLocal(SystemId.Text(sid), lsps)
    ensures SpfOutcome(n, lsps, result)
  {
    var local := SystemId.SystemIDToString(sid);
    result := ComputeSPF(local, adjs, lsps, m);
  }

  /** One SPF run of a router on its present database. */
  method RunSpf(r: Router, ghost m: nat) returns (result: Option<seq<Triple>>)
    requires r.Valid() && DbOk(r.Value().db) && MaySpf(r.Value(), Listing(TreeOf(r.root)), m)
    ensures SpfOutcome(r.Value(), Listing(TreeOf(r.root)), result)
  {
    ListingLists(TreeOf(r.root));
    ListingHasOneLocal(TreeOf(r.root), SystemId.Text(r.sid));
    var lsps := ReadLsps(r.root);
    var adjs := ReadAdjacencies(r);
    result := SpfOn(r.Value(), r.sid, adjs, lsps, m);
  }

  // ----- The end of computeSPF -----------------------------------------------------------------

  /** The topology tree answers a reachable system with its settled triple, and any other
      system as before. */
  ghost predicate Answers(g: Graph, local: string, paths: seq<Triple>, before: T.Tree<Triple>, after: T.Tree<Triple>, id: string) {
    if Reachable(g, local, id)
    then exists i :: 0 <= i < |paths| && paths[i].systemID == id && T.Search(after, SystemId.Key(id)) == Some(paths[i])
    else T.Search(after, SystemId.Key(id)) == T.Search(before, SystemId.Key(id))
  }

  lemma TreeAnswers(local: string, adjs: seq<Adjacency>, lsps: seq<Lsp>, paths: seq<Triple>,
                    before: T.Tree<Triple>, after: T.Tree<Triple>, id: string)
    requires SystemId.Canonical(local) && SystemId.Canonical(id) && forall l :: l in lsps ==> AllReadable(l.core.tlvs)
    requires IsSpfResult(GraphOf(local, adjs, lsps), local, adjs, paths)
    requires T.IsAvl(before) && T.IsAvl(after) && T.ToMap(after) == TopoAfter(T.ToMap(before), paths)
    ensures Answers(GraphOf(local, adjs, lsps), local, paths, before, after, id)
  {
    var g := GraphOf(local, adjs, lsps);
    SettledAreCanonical(local, adjs, lsps, paths);
    TopoAgrees(T.ToMap(before), paths, id);
    T.SearchIsLookup(before, SystemId.Key(id));
    T.SearchIsLookup(after, SystemId.Key(id));
    if Reachable(g, local, id) {
      var i :| 0 <= i < |paths| && paths[i].systemID == id;
    } else {
      forall i | 0 <= i < |paths| ensures paths[i].systemID != id {
        assert IsDistance(g, local, paths[i].systemID, paths[i].distance);
      }
    }
  }

  /** What computeSPF leaves behind: nothing new without our own LSP, otherwise a tree that
      answers for every system. */
  ghost predicate Completed(n: Node, lsps: seq<Lsp>, result: Option<seq<Triple>>, before: T.Tree<Triple>, after: T.Tree<Triple>) {
    && SpfOutcome(n, lsps, result)
    && (result.None? ==> after == before)
    && (result.Some? ==> forall id :: SystemId.Canonical(id) ==>
          Answers(GraphFor(n, lsps), SystemId.Text(n.sid), result.value, before, after, id))
  }

  /** computeSPF to its end: SPF on the router's own tree, and the settled systems put into
      the topology tree, where AvlSearch then finds them. */
  method UpdateTopology(r: Router, topo: AvlNode?<Triple>, ghost m: nat)
    returns (result: Option<seq<Triple>>, topo': AvlNode?<Triple>)
    requires r.Valid() && DbOk(r.Value().db) && MaySpf(r.Value(), Listing(TreeOf(r.root)), m)
    requires IsTree(topo) && T.IsAvl(TreeOf(topo))
    modifies ReprOf(topo)
    ensures IsTree(topo') && T.IsAvl(TreeOf(topo'))
    ensures Completed(old(r.Value()), old(Listing(TreeOf(r.root))), result, old(TreeOf(topo)), TreeOf(topo'))
  {
    ghost var n, lsps, before := r.Value(), Listing(TreeOf(r.root)), TreeOf(topo);
    result := RunSpf(r, m);
    topo' := topo;
    if result.Some? {
      topo' := InsertPaths(topo, result.value);
      SystemId.TextIsCanonical(r.sid);
      forall id | SystemId.Canonical(id)
        ensures Answers(GraphFor(n, lsps), SystemId.Text(n.sid), result.value, before, TreeOf(topo'), id)
      {
        TreeAnswers(SystemId.Text(n.sid), Adjs(n), lsps, result.value, before, TreeOf(topo'), id);
      }
    }
  }
}
