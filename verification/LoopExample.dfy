/** The forwarding loop of UnequalMetrics on concrete LSPs, and what computeSPF makes of
    them at routers 1 and 2. */
module LoopExample {
  import opened Bytes
  import opened Sets
  import opened TlvList
  import opened Lsps
  import opened Graphs
  import opened Interfaces
  import opened Nodes
  import opened Spf
  import opened Decision
  import opened NextHop
  import opened UnequalMetrics
  import SystemId

  // ----- LSPs that describe the example ------------------------------------------------------

  /** These neighbours are those of the list. */
  ghost predicate Spells(ns: seq<string>, neighbors: seq<Neighbor>, ls: seq<Listed>)
    requires |ns| == 10
  {
    |neighbors| == |ls| && forall k :: 0 <= k < |ls| ==> neighbors[k] == Neighbor(ns[ls[k].to], ls[k].metric)
  }

  /** An LSP of system i that lists its links. */
  ghost predicate Describes(ns: seq<string>, l: Lsp, i: number)
    requires |ns| == 10
  {
    SystemOf(l) == ns[i] && AllReadable(l.core.tlvs) && Spells(ns, LookupNeighbors(l.core.tlvs), LinksOf(i))
  }

  ghost predicate AllDescribe(ns: seq<string>, lsps: seq<Lsp>)
    requires |ns| == 10
  {
    |lsps| == 10 && forall i :: 0 <= i < 10 ==> Describes(ns, lsps[i], i)
  }

  /** Router r's adjacencies: one UP for each link it lists. */
  ghost predicate AdjsOf(ns: seq<string>, adjs: seq<Adjacency>, r: number)
    requires |ns| == 10
  {
    |adjs| == |LinksOf(r)| && forall k :: 0 <= k < |adjs| ==>
      (adjs[k].state == UP && NeighborId(adjs[k]) == ns[LinksOf(r)[k].to] && adjs[k].metric == LinksOf(r)[k].metric)
  }

  lemma OwnLinkIsListed(ns: seq<string>, lsps: seq<Lsp>, adjs: seq<Adjacency>, r: number, e: Edge)
    requires |ns| == 10 && AdjsOf(ns, adjs, r) && forall l :: l in lsps ==> AllReadable(l.core.tlvs)
    requires e in GraphOf(ns[r], adjs, lsps) && e.from == ns[r]
    ensures e in Example(ns)
  {
    LocalLinks(ns[r], adjs, lsps, e);
    var a :| a in adjs && a.state == UP && e == Edge(ns[r], NeighborId(a), a.metric);
    var k :| 0 <= k < |adjs| && adjs[k] == a;
    ListedInExample(ns, r, k, e);
  }

  lemma LspLinkIsListed(ns: seq<string>, lsps: seq<Lsp>, l: Lsp, e: Edge)
    requires |ns| == 10 && AllDescribe(ns, lsps) && l in lsps && SystemOf(l) == e.from && e.metric <= MAX_UINT32
    requires AllReadable(l.core.tlvs) && AsNeighbor(e) in LookupNeighbors(l.core.tlvs)
    ensures e in Example(ns)
  {
    var u :| 0 <= u < 10 && lsps[u] == l;
    assert Describes(ns, l, u);
    var neighbors := LookupNeighbors(l.core.tlvs);
    var k :| 0 <= k < |neighbors| && neighbors[k] == AsNeighbor(e);
    ListedInExample(ns, u, k, e);
  }

  lemma GraphInExample(ns: seq<string>, lsps: seq<Lsp>, adjs: seq<Adjacency>, r: number, e: Edge)
    requires |ns| == 10 && AllDescribe(ns, lsps) && AdjsOf(ns, adjs, r)
    requires forall l :: l in lsps ==> AllReadable(l.core.tlvs)
    requires e in GraphOf(ns[r], adjs, lsps)
    ensures e in Example(ns)
  {
    if e.from == ns[r] {
      OwnLinkIsListed(ns, lsps, adjs, r, e);
    } else {
      LinkIsListed(ns[r], adjs, lsps, e);
      var l :| l in lsps && SystemOf(l) == e.from && AsNeighbor(e) in LookupNeighbors(l.core.tlvs);
      LspLinkIsListed(ns, lsps, l, e);
    }
  }

  lemma ExampleInGraph(ns: seq<string>, lsps: seq<Lsp>, adjs: seq<Adjacency>, r: number, e: Edge)
    requires Names(ns) && AllDescribe(ns, lsps) && AdjsOf(ns, adjs, r)
    requires forall l :: l in lsps ==> AllReadable(l.core.tlvs)
    requires e in Example(ns)
    ensures e in GraphOf(ns[r], adjs, lsps)
  {
    var u, k := ExampleIsListed(ns, e);
    if u == r {
      assert adjs[k] in adjs;
    } else {
      var l := lsps[u];
      assert Describes(ns, l, u) && l in lsps;
      assert LookupNeighbors(l.core.tlvs)[k] in LookupNeighbors(l.core.tlvs);
    }
  }

  /** From any of the systems, LSPs and adjacencies together give the example graph. */
  lemma GraphIsExample(ns: seq<string>, lsps: seq<Lsp>, adjs: seq<Adjacency>, r: number)
    requires Names(ns) && AllDescribe(ns, lsps) && AdjsOf(ns, adjs, r)
    requires forall l :: l in lsps ==> AllReadable(l.core.tlvs)
    ensures GraphOf(ns[r], adjs, lsps) == Example(ns)
  {
    forall e | e in GraphOf(ns[r], adjs, lsps) ensures e in Example(ns) {
      GraphInExample(ns, lsps, adjs, r, e);
    }
    forall e | e in Example(ns) ensures e in GraphOf(ns[r], adjs, lsps) {
      ExampleInGraph(ns, lsps, adjs, r, e);
    }
  }

  // ----- SPF on them ------------------------------------------------------------------------

  lemma AllAreReadable(ns: seq<string>, lsps: seq<Lsp>)
    requires |ns| == 10 && AllDescribe(ns, lsps)
    ensures forall l :: l in lsps ==> AllReadable(l.core.tlvs)
  {
    forall l | l in lsps ensures AllReadable(l.core.tlvs) {
      var i :| 0 <= i < 10 && lsps[i] == l;
      assert Describes(ns, l, i);
    }
  }

  lemma OneLspEach(ns: seq<string>, lsps: seq<Lsp>, r: number)
    requires Names(ns) && AllDescribe(ns, lsps)
    ensures OnlyOneLocal(ns[r], lsps)
  {
    forall i | 0 <= i < 10 ensures SystemOf(lsps[i]) == ns[i] {
      assert Describes(ns, lsps[i], i);
    }
  }

  lemma NoneParallel(ns: seq<string>, adjs: seq<Adjacency>, r: number)
    requires Names(ns) && AdjsOf(ns, adjs, r)
    ensures NoParallel(ns[r], adjs)
  {
    var ls := LinksOf(r);
    forall i, j | 0 <= i < j < |adjs| ensures NeighborId(adjs[i]) != NeighborId(adjs[j]) {
      assert ls[i].to != ls[j].to;
    }
    forall i | 0 <= i < |adjs| ensures NeighborId(adjs[i]) != ns[r] {
      assert ls[i].to != r;
    }
  }

  lemma NoWrap(ns: seq<string>, r: number)
    requires |ns| == 10
    ensures MetricsAtMost(Example(ns), 100)
    ensures (|Systems(Example(ns), ns[r])| - 1) * 100 < MAX_UINT32
  {
    var g, all := Example(ns), set x | x in ns;
    forall e | e in g ensures e.metric <= 100 && e.to in all {
      var u, k := ExampleIsListed(ns, e);
    }
    CardMonotone(Systems(g, ns[r]), all);
    ElementsAtMost(ns);
  }

  lemma {:induction false} ElementsAtMost(s: seq<string>)
    ensures |set x | x in s| <= |s|
  {
    if s != [] {
      ElementsAtMost(s[1..]);
      assert (set x | x in s) == {s[0]} + (set x | x in s[1..]);
    }
  }

  method SpfAt(ghost ns: seq<string>, local: string, lsps: seq<Lsp>, adjs: seq<Adjacency>, r: number)
    returns (paths: seq<Triple>)
    requires Names(ns) && AllDescribe(ns, lsps) && AdjsOf(ns, adjs, r) && local == ns[r]
    ensures IsSpfResult(Example(ns), local, adjs, paths)
  {
    AllAreReadable(ns, lsps);
    OneLspEach(ns, lsps, r);
    NoneParallel(ns, adjs, r);
    GraphIsExample(ns, lsps, adjs, r);
    NoWrap(ns, r);
    var result := ComputeSPF(local, adjs, lsps, 100);
    assert Describes(ns, lsps[r], r);
    paths := result.value;
  }

  // ----- Concrete names, LSPs and adjacencies -------------------------------------------------

  function Sys(i: number): Bytes6 {
    [0, 0, 0, 0, 0, i]
  }

  function AllNames(): (ns: seq<string>)
    ensures |ns| == 10 && forall i :: 0 <= i < 10 ==> ns[i] == SystemId.Text(Sys(i))
  {
    seq(10, i requires 0 <= i < 10 => SystemId.Text(Sys(i)))
  }

  lemma AllNamesDiffer()
    ensures Names(AllNames())
  {
    forall i, j | 0 <= i < j < 10 ensures AllNames()[i] != AllNames()[j] {
      if SystemId.Text(Sys(i)) == SystemId.Text(Sys(j)) {
        SystemId.TextInjective(Sys(i), Sys(j));
      }
    }
  }

  function EntriesOf(ls: seq<Listed>): (es: seq<seq<byte>>)
    ensures |es| == |ls| && forall k :: 0 <= k < |ls| ==> es[k] == MetricEntry(ls[k].metric, Sys(ls[k].to))
  {
    seq(|ls|, k requires 0 <= k < |ls| => MetricEntry(ls[k].metric, Sys(ls[k].to)))
  }

  function TlvOf(ls: seq<Listed>): (t: Tlv)
    requires |ls| <= 3
    ensures Readable(t) && NeighborCount(t) == |ls| && t.typeTLV == NEIGHBORS_TLV
  {
    BlocksLength(EntriesOf(ls), 11);
    Tlv(NEIGHBORS_TLV, 1 + 11 * |ls|, [0] + Blocks(EntriesOf(ls)))
  }

  lemma TlvEntry(ls: seq<Listed>, k: nat)
    requires |ls| <= 3 && k < |ls|
    ensures NeighborAt(TlvOf(ls), k) == Neighbor(SystemId.Text(Sys(ls[k].to)), ls[k].metric)
  {
    BlockAt(EntriesOf(ls), 11, k);
    SliceAfterFirst(0, Blocks(EntriesOf(ls)), 11 * k, 11);
    NeighborFromBytes(TlvOf(ls), k, ls[k].metric, Sys(ls[k].to));
  }

  lemma SliceAfterFirst(x: byte, s: seq<byte>, a: nat, n: nat)
    requires a + n <= |s|
    ensures ([x] + s)[1 + a..1 + a + n] == s[a..a + n]
  {
  }

  lemma TlvSpells(ls: seq<Listed>)
    requires |ls| <= 3
    ensures Spells(AllNames(), Neighbors(TlvOf(ls)), ls)
  {
    forall k | 0 <= k < |ls|
      ensures Neighbors(TlvOf(ls))[k] == Neighbor(AllNames()[ls[k].to], ls[k].metric)
    {
      TlvEntry(ls, k);
    }
  }

  function LspOf(i: number): Lsp {
    MakeLsp(Sys(i), 1, [TlvOf(LinksOf(i))])
  }

  function AllLsps(): (ls: seq<Lsp>)
    ensures |ls| == 10 && forall k :: 0 <= k < 10 ==> ls[k] == LspOf(k)
  {
    seq(10, k requires 0 <= k < 10 => LspOf(k))
  }

  lemma LspDescribes(i: number)
    ensures Describes(AllNames(), LspOf(i), i)
  {
    var l := LspOf(i);
    assert l.lspID[..6] == Sys(i);
    TlvSpells(LinksOf(i));
    assert LookupNeighbors(l.core.tlvs) == Neighbors(TlvOf(LinksOf(i)));
  }

  lemma AllLspsDescribe()
    ensures AllDescribe(AllNames(), AllLsps())
  {
    forall i | 0 <= i < 10 ensures Describes(AllNames(), AllLsps()[i], i) {
      LspDescribes(i);
    }
  }

  /** The adjacencies of routers 1 and 2, each with the metric hello.go gives it. */
  function UpAdjs(i: number): (adjs: seq<Adjacency>)
    requires i == 1 || i == 2
    ensures AdjsOf(AllNames(), adjs, i) && forall k :: 0 <= k < |adjs| ==> adjs[k].metric == 10
  {
    seq(|LinksOf(i)|, k requires 0 <= k < |LinksOf(i)| =>
      Adjacency(UP, Sys(LinksOf(i)[k].to), LinksOf(i)[k].metric, "", [0, 0, 0, 0]))
  }

  /** On these LSPs computeSPF makes 1 forward to 2 and 2 forward to 1 for system 9,
      although neither is on a shortest path of the other. */
  method RunLoop() returns (paths1: seq<Triple>, paths2: seq<Triple>)
    ensures var ns, g := AllNames(), Example(AllNames());
      && Names(ns) && IsSpfResult(g, ns[1], UpAdjs(1), paths1) && IsSpfResult(g, ns[2], UpAdjs(2), paths2)
      && Forwards(UpAdjs(1), paths1, ns[9], ns[2]) && !StartsShortest(g, ns[1], ns[2], ns[9])
      && Forwards(UpAdjs(2), paths2, ns[9], ns[1]) && !StartsShortest(g, ns[2], ns[1], ns[9])
  {
    AllNamesDiffer();
    AllLspsDescribe();
    paths1 := SpfAt(AllNames(), AllNames()[1], AllLsps(), UpAdjs(1), 1);
    paths2 := SpfAt(AllNames(), AllNames()[2], AllLsps(), UpAdjs(2), 2);
    ForwardingLoop(AllNames(), UpAdjs(1), UpAdjs(2), paths1, paths2);
  }
}
