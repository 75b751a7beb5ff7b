/** Theorems about whole runs from boot: provenance, monotonicity, local consistency,
    and convergence of the LSP databases once flooding is quiet. */
module Convergence {
  import opened Bytes
  import opened Lsps
  import opened Hellos
  import opened Interfaces
  import opened Nodes
  import opened Wire
  import opened Network
  import opened NodeSteps
  import opened Adverts
  import opened Safety

  /** s is reached from a booted, cabled network. */
  ghost predicate ReachableBy(peer: Cabling, s0: Net, es: seq<Event>) {
    Initial(s0) && Cabled(peer, s0) && IsRun(peer, s0, es)
  }

  lemma ReachableInv(peer: Cabling, s0: Net, es: seq<Event>)
    requires ReachableBy(peer, s0, es)
    ensures Inv(peer, After(peer, s0, es))
  {
    InitialInv(peer, s0);
    RunKeeps(peer, s0, es);
  }

  // ----- Provenance and agreement -----------------------------------------------------------

  ghost predicate Anywhere(s: Net, l: Lsp) {
    || (exists a, k :: 0 <= a < |s.nodes| && k in s.nodes[a].db && s.nodes[a].db[k] == l)
    || (exists d :: Packet(d, LspMsg(l)) in s.flight)
  }

  /** In every run, every LSP stored or in flight was made by the owner of its ID, is
      numbered within the owner's counter, and any two with the same key and number
      are the same LSP. */
  lemma Provenance(peer: Cabling, s0: Net, es: seq<Event>, l: Lsp, m: Lsp)
    requires ReachableBy(peer, s0, es)
    requires Anywhere(After(peer, s0, es), l) && Anywhere(After(peer, s0, es), m)
    ensures Owned(After(peer, s0, es), l)
    ensures l.key == m.key && SequenceNumber(l) == SequenceNumber(m) ==> l == m
  {
    var s := After(peer, s0, es);
    ReachableInv(peer, s0, es);
    AnywhereIsLogged(peer, s, l);
    AnywhereIsLogged(peer, s, m);
  }

  lemma AnywhereIsLogged(peer: Cabling, s: Net, l: Lsp)
    requires NodesOk(s) && PacketsOk(peer, s) && Anywhere(s, l)
    ensures l in s.log
  {
    if exists a, k :: 0 <= a < |s.nodes| && k in s.nodes[a].db && s.nodes[a].db[k] == l {
      var a, k :| 0 <= a < |s.nodes| && k in s.nodes[a].db && s.nodes[a].db[k] == l;
      assert NodeOk(s, s.nodes[a]);
    } else {
      var d :| Packet(d, LspMsg(l)) in s.flight;
      assert PacketOk(peer, s, Packet(d, LspMsg(l)));
    }
  }

  /** In every run, whatever has a flood state is in the database, the router's own LSP
      carries its current sequence number, and it lists exactly the UP adjacencies. */
  lemma LocalConsistency(peer: Cabling, s0: Net, es: seq<Event>, a: nat)
    requires ReachableBy(peer, s0, es) && a < |After(peer, s0, es).nodes|
    ensures var n := After(peer, s0, es).nodes[a];
      && OwnLspOk(n)
      && (n.sequenceNumber > 0 ==> OwnKey(n) in n.db && Advertises(n.db[OwnKey(n)].core.tlvs, n.intfs))
      && forall i :: 0 <= i < |n.intfs| ==> n.intfs[i].flood.Keys == n.db.Keys
  {
    ReachableInv(peer, s0, es);
    assert NodeOk(After(peer, s0, es), After(peer, s0, es).nodes[a]);
    OwnTlvsAdvertise(After(peer, s0, es).nodes[a].intfs);
  }

  // ----- Monotonicity --------------------------------------------------------------------------

  lemma StepEvolves(peer: Cabling, s: Net, e: Event)
    requires Inv(peer, s) && Enabled(s, e)
    ensures Evolves(s, Apply(peer, s, e))
  {
    var s' := Apply(peer, s, e);
    match e {
      case HelloTimer(p) => SameNodesEvolve(s, s');
      case LspTimer(p, k) =>
        assert AdjOk(peer, s, p);
        SendNodes(peer, s, s', p, k);
      case Deliver(pkt) =>
        assert PacketOk(peer, s, pkt);
        match pkt.msg {
          case LspMsg(l) => ReceiveNodes(s, s', pkt.dst, l);
          case HelloMsg(h) => HelloEvolves(peer, s, pkt.dst, h);
        }
    }
  }

  lemma HelloEvolves(peer: Cabling, s: Net, d: Port, h: Hello)
    requires NodesOk(s) && IsPort(s, d) && d in peer && s.nodes[d.node].sequenceNumber < MAX_UINT32
    ensures Evolves(s, DeliverHello(peer, s, Packet(d, HelloMsg(h)), h))
  {
    var s' := DeliverHello(peer, s, Packet(d, HelloMsg(h)), h);
    DeliverHelloIs(peer, s, d, h);
    match Classify(s.nodes[d.node], d.intf, h) {
      case OwnHello => SameNodesEvolve(s, s');
      case Other => SameNodesEvolve(s, s');
      case Greeting => GreetNodes(peer, s, s', d, h);
      case Confirms => ConfirmNodes(peer, s, s', d, h);
    }
  }

  lemma EvolvesTransitive(s: Net, t: Net, u: Net)
    requires Evolves(s, t) && Evolves(t, u)
    ensures Evolves(s, u)
  {
    forall a | 0 <= a < |s.nodes| ensures NodeEvolves(s.nodes[a], u.nodes[a]) {
      NodeEvolvesTransitive(s.nodes[a], t.nodes[a], u.nodes[a]);
    }
  }

  lemma NodeEvolvesTransitive(n: Node, m: Node, o: Node)
    requires NodeEvolves(n, m) && NodeEvolves(m, o)
    ensures NodeEvolves(n, o)
  {
    forall k | k in n.db ensures Has(o, k, SequenceNumber(n.db[k])) {
      assert Has(m, k, SequenceNumber(n.db[k]));
    }
  }

  /** Over any run from any reachable state no counter and no stored sequence number goes
      down, and nothing stored is forgotten. */
  lemma {:induction false} RunEvolves(peer: Cabling, s: Net, es: seq<Event>)
    requires Inv(peer, s) && IsRun(peer, s, es)
    ensures Evolves(s, After(peer, s, es))
    decreases |es|
  {
    if es == [] {
      SameNodesEvolve(s, s);
    } else {
      var t := Apply(peer, s, es[0]);
      StepEvolves(peer, s, es[0]);
      StepKeeps(peer, s, es[0]);
      RunEvolves(peer, t, es[1..]);
      EvolvesTransitive(s, t, After(peer, s, es));
    }
  }

  // ----- Convergence -------------------------------------------------------------------------------

  /** No LSP is in flight and no UP interface has an SRM flag set. */
  ghost predicate Quiescent(s: Net) {
    && (forall pkt :: pkt in s.flight ==> !pkt.msg.LspMsg?)
    && (forall p, k :: IsPort(s, p) && IntfAt(s, p).adj.state == UP && k in IntfAt(s, p).flood ==>
          !IntfAt(s, p).flood[k])
  }

  /** The link at p is UP at this end. */
  ghost predicate UpPort(peer: Cabling, s: Net, p: Port) {
    p in peer && IsPort(s, p) && IsPort(s, peer[p]) && IntfAt(s, p).adj.state == UP
  }

  /** The link at p is UP at both ends. */
  ghost predicate LinkUp(peer: Cabling, s: Net, p: Port) {
    && p in peer && IsPort(s, p) && IsPort(s, peer[p])
    && IntfAt(s, p).adj.state == UP && IntfAt(s, peer[p]).adj.state == UP
  }

  /** Links UP at both ends, end to end from router a to router b. */
  ghost predicate UpChain(peer: Cabling, s: Net, a: nat, b: nat, ps: seq<Port>)
    decreases |ps|
  {
    if ps == [] then a == b && a < |s.nodes|
    else ps[0].node == a && LinkUp(peer, s, ps[0]) && UpChain(peer, s, peer[ps[0]].node, b, ps[1..])
  }

  lemma PeerHasIt(peer: Cabling, s: Net, p: Port, k: nat)
    requires Cabled(peer, s) && AllFlooded(peer, s) && Quiescent(s) && UpPort(peer, s, p)
    requires k in s.nodes[p.node].db
    ensures Has(s.nodes[peer[p].node], k, SequenceNumber(s.nodes[p.node].db[k]))
  {
    assert Flooded(peer, s, p, k);
  }

  lemma PeersAgree(peer: Cabling, s: Net, p: Port)
    requires Inv(peer, s) && Quiescent(s) && LinkUp(peer, s, p)
    ensures s.nodes[p.node].db == s.nodes[peer[p].node].db
  {
    var m, n := s.nodes[p.node], s.nodes[peer[p].node];
    assert NodeOk(s, m) && NodeOk(s, n);
    forall k | k in m.db ensures Has(n, k, SequenceNumber(m.db[k])) {
      PeerHasIt(peer, s, p, k);
    }
    forall k | k in n.db ensures Has(m, k, SequenceNumber(n.db[k])) {
      PeerHasIt(peer, s, peer[p], k);
    }
    SameDb(s.log, m, n);
  }

  lemma StoredIsLogged(s: Net, b: nat, k: nat)
    requires NodesOk(s) && b < |s.nodes| && k in s.nodes[b].db
    ensures s.nodes[b].db[k] in s.log && s.nodes[b].db[k].key == k
  {
    assert NodeOk(s, s.nodes[b]);
  }

  /** A router's own LSP is stored, carries its counter and lists its UP adjacencies. */
  lemma OwnIsPresent(s: Net, c: nat)
    requires NodesOk(s) && c < |s.nodes| && s.nodes[c].sequenceNumber > 0
    ensures var n, k := s.nodes[c], OwnKey(s.nodes[c]);
      k in n.db && SequenceNumber(n.db[k]) == n.sequenceNumber && n.db[k].core.tlvs == OwnTlvs(n.intfs)
  {
    assert NodeOk(s, s.nodes[c]);
  }

  lemma SameNumberSameLsp(log: set<Lsp>, l: Lsp, m: Lsp)
    requires Agree(log) && l in log && m in log && l.key == m.key && SequenceNumber(l) == SequenceNumber(m)
    ensures l == m
  {
  }

  lemma SameDb(log: set<Lsp>, m: Node, n: Node)
    requires Agree(log)
    requires forall k :: k in m.db ==> m.db[k] in log && m.db[k].key == k && Has(n, k, SequenceNumber(m.db[k]))
    requires forall k :: k in n.db ==> n.db[k] in log && n.db[k].key == k && Has(m, k, SequenceNumber(n.db[k]))
    ensures m.db == n.db
  {
    forall k | k in m.db ensures k in n.db && n.db[k] == m.db[k] {
      assert SequenceNumber(n.db[k]) == SequenceNumber(m.db[k]);
    }
  }

  lemma {:induction false} ChainAgrees(peer: Cabling, s: Net, a: nat, b: nat, ps: seq<Port>)
    requires Inv(peer, s) && Quiescent(s) && UpChain(peer, s, a, b, ps)
    ensures a < |s.nodes| && b < |s.nodes| && s.nodes[a].db == s.nodes[b].db
    decreases |ps|
  {
    if ps != [] {
      PeersAgree(peer, s, ps[0]);
      ChainAgrees(peer, s, peer[ps[0]].node, b, ps[1..]);
    }
  }

  /** Convergence: whenever flooding is quiet, routers joined by UP links hold the same
      database, and it contains the current LSP of each of them. */
  lemma DatabasesConverge(peer: Cabling, s0: Net, es: seq<Event>, a: nat, b: nat, ps: seq<Port>)
    requires ReachableBy(peer, s0, es) && Quiescent(After(peer, s0, es))
    requires UpChain(peer, After(peer, s0, es), a, b, ps)
    ensures var s := After(peer, s0, es);
      && a < |s.nodes| && b < |s.nodes| && s.nodes[a].db == s.nodes[b].db
      && (s.nodes[b].sequenceNumber > 0 ==>
            && OwnKey(s.nodes[b]) in s.nodes[a].db
            && SequenceNumber(s.nodes[a].db[OwnKey(s.nodes[b])]) == s.nodes[b].sequenceNumber
            && s.nodes[a].db[OwnKey(s.nodes[b])].core.tlvs == OwnTlvs(s.nodes[b].intfs)
            && Advertises(s.nodes[a].db[OwnKey(s.nodes[b])].core.tlvs, s.nodes[b].intfs))
  {
    var s := After(peer, s0, es);
    ReachableInv(peer, s0, es);
    ChainAgrees(peer, s, a, b, ps);
    if s.nodes[b].sequenceNumber > 0 {
      OwnIsPresent(s, b);
      OwnTlvsAdvertise(s.nodes[b].intfs);
    }
  }
}
