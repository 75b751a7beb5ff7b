/** Every event keeps the network invariant, so it holds in every run. */
module Safety {
  import opened Bytes
  import opened Lsps
  import opened Hellos
  import opened Interfaces
  import opened Nodes
  import opened Wire
  import opened Network
  import opened NodeSteps
  import SystemId

  /** What no event undoes, anywhere. */
  ghost predicate Evolves(s: Net, s': Net) {
    && |s'.nodes| == |s.nodes|
    && (forall a :: 0 <= a < |s.nodes| ==> NodeEvolves(s.nodes[a], s'.nodes[a]))
    && s.log <= s'.log && s.heard <= s'.heard
  }

  lemma OneNodeEvolves(s: Net, s': Net, a: nat)
    requires a < |s.nodes| && |s'.nodes| == |s.nodes| && NodeEvolves(s.nodes[a], s'.nodes[a])
    requires forall b :: 0 <= b < |s.nodes| && b != a ==> s'.nodes[b] == s.nodes[b]
    requires s.log <= s'.log && s.heard <= s'.heard
    ensures Evolves(s, s')
  {
  }

  lemma SameNodesEvolve(s: Net, s': Net)
    requires s'.nodes == s.nodes && s.log <= s'.log && s.heard <= s'.heard
    ensures Evolves(s, s')
  {
  }

  lemma CabledKept(peer: Cabling, s: Net, s': Net)
    requires Cabled(peer, s) && Evolves(s, s')
    ensures Cabled(peer, s')
  {
    forall p | p in peer ensures IsPort(s', p) {
      assert NodeEvolves(s.nodes[p.node], s'.nodes[p.node]);
    }
    forall a | 0 <= a < |s.nodes| ensures s'.nodes[a].sid == s.nodes[a].sid && WithinLimits(peer, s', a) {
      assert NodeEvolves(s.nodes[a], s'.nodes[a]) && WithinLimits(peer, s, a);
      SameRoutes(s.nodes[a].intfs, s'.nodes[a].intfs);
    }
  }

  lemma OwnedKept(peer: Cabling, s: Net, s': Net, l: Lsp)
    requires Owned(s, l) && Evolves(s, s') && AdjsOk(peer, s) && AdjsOk(peer, s')
    ensures Owned(s', l)
  {
    var o :| 0 <= o < |s.nodes| && OwnKey(s.nodes[o]) == l.key
             && 1 <= SequenceNumber(l) <= s.nodes[o].sequenceNumber;
    assert NodeEvolves(s.nodes[o], s'.nodes[o]);
    assert OwnKey(s'.nodes[o]) == l.key;
    forall n | n in LookupNeighbors(l.core.tlvs) ensures HasUp(s', l.key, n.systemID) {
      HasUpKept(peer, s, s', l.key, n.systemID);
    }
  }

  /** An UP adjacency stays UP and names the same router. */
  lemma HasUpKept(peer: Cabling, s: Net, s': Net, key: nat, id: string)
    requires HasUp(s, key, id) && Evolves(s, s') && AdjsOk(peer, s) && AdjsOk(peer, s')
    ensures HasUp(s', key, id)
  {
    var p :| IsPort(s, p) && OwnKey(s.nodes[p.node]) == key
             && IntfAt(s, p).adj.state == UP && NeighborId(IntfAt(s, p).adj) == id;
    assert NodeEvolves(s.nodes[p.node], s'.nodes[p.node]);
    assert AdjOk(peer, s, p) && AdjOk(peer, s', p);
    assert NodeEvolves(s.nodes[peer[p].node], s'.nodes[peer[p].node]);
    assert IsPort(s', p) && OwnKey(s'.nodes[p.node]) == key;
  }

  lemma HasKept(n: Node, n': Node, k: nat, q: int)
    requires Has(n, k, q) && NodeEvolves(n, n')
    ensures Has(n', k, q)
  {
    assert Has(n', k, SequenceNumber(n.db[k]));
  }

  lemma PacketKept(peer: Cabling, s: Net, s': Net, pkt: Packet)
    requires Cabled(peer, s) && PacketOk(peer, s, pkt) && Evolves(s, s')
    ensures PacketOk(peer, s', pkt)
  {
    var d, r := pkt.dst, peer[pkt.dst];
    assert NodeEvolves(s.nodes[d.node], s'.nodes[d.node]);
    assert NodeEvolves(s.nodes[r.node], s'.nodes[r.node]);
    if pkt.msg.LspMsg? {
      HasKept(s.nodes[r.node], s'.nodes[r.node], pkt.msg.lsp.key, SequenceNumber(pkt.msg.lsp));
    }
  }

  lemma AdjKept(peer: Cabling, s: Net, s': Net, p: Port)
    requires IsPort(s, p) && AdjOk(peer, s, p) && Evolves(s, s') && IsPort(s', p)
    requires IntfAt(s', p).adj == IntfAt(s, p).adj && (p in s'.heard ==> p in s.heard)
    ensures AdjOk(peer, s', p)
  {
    if IntfAt(s, p).adj.state == UP {
      assert NodeEvolves(s.nodes[peer[p].node], s'.nodes[peer[p].node]);
    }
  }

  /** Flooded survives if the copy and flag at p are untouched and no copy on its way to
      the peer is lost without being stored there. */
  lemma FloodedKept(peer: Cabling, s: Net, s': Net, p: Port, k: nat)
    requires Cabled(peer, s) && Cabled(peer, s') && Evolves(s, s') && p in peer
    requires k in s.nodes[p.node].db && Flooded(peer, s, p, k)
    requires Undisturbed(s, s', p, k) && NoneLost(s, s', peer[p])
    ensures Flooded(peer, s', p, k)
  {
    var q, r := SequenceNumber(s.nodes[p.node].db[k]), peer[p];
    if Has(s.nodes[r.node], k, q) {
      HasKept(s.nodes[r.node], s'.nodes[r.node], k, q);
    } else if InFlight(s, r, k, q) {
      var l :| Packet(r, LspMsg(l)) in s.flight && l.key == k && SequenceNumber(l) >= q;
    }
  }

  lemma LogKept(peer: Cabling, s: Net, s': Net)
    requires LogOk(s) && Evolves(s, s') && AdjsOk(peer, s) && AdjsOk(peer, s') && s'.log == s.log
    ensures LogOk(s')
  {
    forall l | l in s'.log ensures Owned(s', l) {
      OwnedKept(peer, s, s', l);
    }
  }

  lemma NodesKept(s: Net, s': Net, a: nat)
    requires NodesOk(s) && s.log <= s'.log && |s'.nodes| == |s.nodes|
    requires forall b :: 0 <= b < |s.nodes| && b != a ==> s'.nodes[b] == s.nodes[b]
    requires a < |s.nodes| ==> NodeOk(s', s'.nodes[a])
    ensures NodesOk(s')
  {
  }

  lemma AdjsKept(peer: Cabling, s: Net, s': Net, changed: set<Port>)
    requires AdjsOk(peer, s) && Evolves(s, s')
    requires forall p :: IsPort(s', p) && p !in changed ==>
               IsPort(s, p) && IntfAt(s', p).adj == IntfAt(s, p).adj && (p in s'.heard ==> p in s.heard)
    requires forall p :: IsPort(s', p) && p in changed ==> AdjOk(peer, s', p)
    ensures AdjsOk(peer, s')
  {
    forall q | IsPort(s', q) ensures AdjOk(peer, s', q) {
      if q !in changed { AdjKept(peer, s, s', q); }
    }
  }

  lemma PacketsKept(peer: Cabling, s: Net, s': Net)
    requires Cabled(peer, s) && PacketsOk(peer, s) && Evolves(s, s')
    requires forall pkt :: pkt in s'.flight && pkt !in s.flight ==> PacketOk(peer, s', pkt)
    ensures PacketsOk(peer, s')
  {
    forall pkt | pkt in s'.flight ensures PacketOk(peer, s', pkt) {
      if pkt in s.flight { PacketKept(peer, s, s', pkt); }
    }
  }

  /** The event did not touch what port p owes about k. */
  ghost predicate Undisturbed(s: Net, s': Net, p: Port, k: nat)
    requires IsPort(s, p) && IsPort(s', p)
  {
    && k in s.nodes[p.node].db && k in s'.nodes[p.node].db
    && s'.nodes[p.node].db[k] == s.nodes[p.node].db[k]
    && (k in IntfAt(s, p).flood && IntfAt(s, p).flood[k] ==> k in IntfAt(s', p).flood && IntfAt(s', p).flood[k])
  }

  /** No LSP on its way to r is lost without being stored there. */
  ghost predicate NoneLost(s: Net, s': Net, r: Port)
    requires IsPort(s', r)
  {
    forall l :: Packet(r, LspMsg(l)) in s.flight ==>
      Packet(r, LspMsg(l)) in s'.flight || Has(s'.nodes[r.node], l.key, SequenceNumber(l))
  }

  lemma AllFloodedKept(peer: Cabling, s: Net, s': Net)
    requires Cabled(peer, s) && Cabled(peer, s') && Evolves(s, s') && AllFlooded(peer, s)
    requires forall p :: p in peer ==> NoneLost(s, s', p)
    requires forall p, k :: p in peer && k in s'.nodes[p.node].db ==>
               Undisturbed(s, s', p, k) || Flooded(peer, s', p, k)
    ensures AllFlooded(peer, s')
  {
    forall p, k | p in peer && k in s'.nodes[p.node].db ensures Flooded(peer, s', p, k) {
      if Undisturbed(s, s', p, k) { FloodedKept(peer, s, s', p, k); }
    }
  }

  // ----- Steps that only add or drop hellos -------------------------------------------------

  ghost predicate OnlyFlightChanged(peer: Cabling, s: Net, s': Net) {
    && s'.nodes == s.nodes && s'.log == s.log && s'.heard == s.heard
    && (forall pkt :: pkt in s'.flight && pkt !in s.flight ==> PacketOk(peer, s, pkt))
    && (forall pkt :: pkt in s.flight && pkt.msg.LspMsg? ==> pkt in s'.flight)
  }

  lemma QuietPackets(peer: Cabling, s: Net, s': Net)
    requires PacketsOk(peer, s) && OnlyFlightChanged(peer, s, s')
    ensures PacketsOk(peer, s')
  {
    forall pkt | pkt in s'.flight ensures PacketOk(peer, s', pkt) {
      assert PacketOk(peer, s, pkt);
    }
  }

  lemma QuietCabled(peer: Cabling, s: Net, s': Net)
    requires Cabled(peer, s) && s'.nodes == s.nodes
    ensures Cabled(peer, s')
  {
    forall a | 0 <= a < |s'.nodes| ensures WithinLimits(peer, s', a) {
      assert WithinLimits(peer, s, a);
    }
  }

  lemma QuietFloods(peer: Cabling, s: Net, s': Net)
    requires Cabled(peer, s) && Cabled(peer, s') && AllFlooded(peer, s) && OnlyFlightChanged(peer, s, s')
    ensures AllFlooded(peer, s')
  {
    forall p, k | p in peer && k in s'.nodes[p.node].db ensures Flooded(peer, s', p, k) {
      assert Flooded(peer, s, p, k);
      var q := SequenceNumber(s.nodes[p.node].db[k]);
      if InFlight(s, peer[p], k, q) {
        var l :| Packet(peer[p], LspMsg(l)) in s.flight && l.key == k && SequenceNumber(l) >= q;
        assert Packet(peer[p], LspMsg(l)) in s'.flight;
      }
    }
  }

  lemma QuietHasUp(s: Net, s': Net, key: nat, id: string)
    requires HasUp(s, key, id) && s'.nodes == s.nodes
    ensures HasUp(s', key, id)
  {
    var p :| IsPort(s, p) && OwnKey(s.nodes[p.node]) == key
             && IntfAt(s, p).adj.state == UP && NeighborId(IntfAt(s, p).adj) == id;
    assert IsPort(s', p) && IntfAt(s', p) == IntfAt(s, p);
  }

  lemma QuietLog(s: Net, s': Net)
    requires LogOk(s) && s'.nodes == s.nodes && s'.log == s.log
    ensures LogOk(s')
  {
    forall l | l in s'.log ensures Owned(s', l) {
      assert Owned(s, l);
      var o :| 0 <= o < |s.nodes| && OwnKey(s.nodes[o]) == l.key
               && 1 <= SequenceNumber(l) <= s.nodes[o].sequenceNumber;
      assert OwnKey(s'.nodes[o]) == l.key;
      forall n | n in LookupNeighbors(l.core.tlvs) ensures HasUp(s', l.key, n.systemID) {
        QuietHasUp(s, s', l.key, n.systemID);
      }
    }
  }

  lemma QuietNodes(s: Net, s': Net)
    requires NodesOk(s) && s'.nodes == s.nodes && s'.log == s.log
    ensures NodesOk(s')
  {
    forall a | 0 <= a < |s'.nodes| ensures NodeOk(s', s'.nodes[a]) {
      assert NodeOk(s, s.nodes[a]);
    }
  }

  lemma QuietAdjs(peer: Cabling, s: Net, s': Net)
    requires AdjsOk(peer, s) && s'.nodes == s.nodes && s'.heard == s.heard
    ensures AdjsOk(peer, s')
  {
    forall p | IsPort(s', p) ensures AdjOk(peer, s', p) {
      assert IsPort(s, p);
      assert AdjOk(peer, s, p);
    }
  }

  lemma QuietStep(peer: Cabling, s: Net, s': Net)
    requires Inv(peer, s) && OnlyFlightChanged(peer, s, s')
    ensures Inv(peer, s')
  {
    QuietCabled(peer, s, s');
    assert Cabled(peer, s');
    QuietLog(s, s');
    QuietNodes(s, s');
    QuietAdjs(peer, s, s');
    QuietPackets(peer, s, s');
    QuietFloods(peer, s, s');
  }

  lemma GreetingIsOk(peer: Cabling, s: Net, p: Port)
    requires Cabled(peer, s) && p in peer
    ensures PacketOk(peer, s, Packet(peer[p], HelloMsg(PlainHello(s.nodes[p.node], p.intf))))
  {
  }

  lemma HelloTimerKeeps(peer: Cabling, s: Net, p: Port)
    requires Inv(peer, s) && Enabled(s, HelloTimer(p))
    ensures Inv(peer, Apply(peer, s, HelloTimer(p)))
  {
    if p in peer { GreetingIsOk(peer, s, p); }
    QuietStep(peer, s, Apply(peer, s, HelloTimer(p)));
  }

  // ----- LSP timer -------------------------------------------------------------------------

  ghost predicate IsLspSend(peer: Cabling, s: Net, s': Net, p: Port, k: nat) {
    && IsPort(s, p) && MaySend(s.nodes[p.node], p.intf, k) && p in peer
    && s' == s.(nodes := s.nodes[p.node := ClearSrm(s.nodes[p.node], p.intf, k)],
                flight := s.flight + multiset{Packet(peer[p], LspMsg(s.nodes[p.node].db[k]))})
  }

  lemma SendNodes(peer: Cabling, s: Net, s': Net, p: Port, k: nat)
    requires IsLspSend(peer, s, s', p, k) && NodesOk(s)
    ensures Evolves(s, s') && NodesOk(s')
  {
    ClearSrmKeeps(s, s.nodes[p.node], p.intf, k);
    OneNodeEvolves(s, s', p.node);
    NodesKept(s, s', p.node);
  }

  lemma SendAdjs(peer: Cabling, s: Net, s': Net, p: Port, k: nat)
    requires IsLspSend(peer, s, s', p, k) && AdjsOk(peer, s) && Evolves(s, s')
    ensures AdjsOk(peer, s')
  {
    AdjsKept(peer, s, s', {});
  }

  lemma SendPackets(peer: Cabling, s: Net, s': Net, p: Port, k: nat)
    requires IsLspSend(peer, s, s', p, k) && Cabled(peer, s) && NodesOk(s) && PacketsOk(peer, s) && Evolves(s, s')
    ensures PacketsOk(peer, s')
  {
    var l := s.nodes[p.node].db[k];
    assert NodeOk(s, s.nodes[p.node]);
    assert PacketOk(peer, s, Packet(peer[p], LspMsg(l)));
    PacketKept(peer, s, s', Packet(peer[p], LspMsg(l)));
    PacketsKept(peer, s, s');
  }

  lemma SendUndisturbed(peer: Cabling, s: Net, s': Net, p: Port, k: nat, q: Port, j: nat)
    requires IsLspSend(peer, s, s', p, k) && IsPort(s, q) && IsPort(s', q)
    requires j in s'.nodes[q.node].db && (q != p || j != k)
    ensures Undisturbed(s, s', q, j)
  {
  }

  lemma SendFloods(peer: Cabling, s: Net, s': Net, p: Port, k: nat)
    requires IsLspSend(peer, s, s', p, k) && Cabled(peer, s) && Cabled(peer, s') && Evolves(s, s')
    requires AllFlooded(peer, s) && s.nodes[p.node].db[k].key == k
    ensures AllFlooded(peer, s')
  {
    forall q, j | q in peer && j in s'.nodes[q.node].db
      ensures Undisturbed(s, s', q, j) || Flooded(peer, s', q, j)
    {
      if q == p && j == k {
        SentIsFlooded(peer, s', p, k, s.nodes[p.node].db[k]);
      } else {
        SendUndisturbed(peer, s, s', p, k, q, j);
      }
    }
    AllFloodedKept(peer, s, s');
  }

  lemma SentIsFlooded(peer: Cabling, s: Net, p: Port, k: nat, l: Lsp)
    requires p in peer && IsPort(s, p) && IsPort(s, peer[p])
    requires k in s.nodes[p.node].db && s.nodes[p.node].db[k] == l && Packet(peer[p], LspMsg(l)) in s.flight
    requires l.key == k
    ensures Flooded(peer, s, p, k)
  {
  }

  lemma LspTimerKeeps(peer: Cabling, s: Net, p: Port, k: nat)
    requires Inv(peer, s) && Enabled(s, LspTimer(p, k))
    ensures Inv(peer, Apply(peer, s, LspTimer(p, k)))
  {
    var s' := Apply(peer, s, LspTimer(p, k));
    assert AdjOk(peer, s, p);
    assert NodeOk(s, s.nodes[p.node]);
    SendNodes(peer, s, s', p, k);
    CabledKept(peer, s, s');
    SendAdjs(peer, s, s', p, k);
    LogKept(peer, s, s');
    SendPackets(peer, s, s', p, k);
    SendFloods(peer, s, s', p, k);
  }

  // ----- LSP delivery ------------------------------------------------------------------------

  ghost predicate IsLspDelivery(s: Net, s': Net, d: Port, l: Lsp) {
    && IsPort(s, d) && Packet(d, LspMsg(l)) in s.flight && s' == DeliverLsp(s, Packet(d, LspMsg(l)), l)
  }

  lemma ReceiveNodes(s: Net, s': Net, d: Port, l: Lsp)
    requires IsLspDelivery(s, s', d, l) && NodesOk(s) && l in s.log && Owned(s, l)
    requires forall i, j :: 0 <= i < j < |s.nodes| ==> s.nodes[i].sid != s.nodes[j].sid
    ensures Evolves(s, s') && NodesOk(s')
  {
    ReceiveLspEvolves(s.nodes[d.node], d.intf, l);
    ReceiveLspKeeps(s, d.node, d.intf, l);
    OneNodeEvolves(s, s', d.node);
    NodesKept(s, s', d.node);
  }

  lemma ReceiveAdjs(peer: Cabling, s: Net, s': Net, d: Port, l: Lsp)
    requires IsLspDelivery(s, s', d, l) && AdjsOk(peer, s) && Evolves(s, s')
    ensures AdjsOk(peer, s')
  {
    AdjsKept(peer, s, s', {});
  }

  lemma ReceiveLosesNone(s: Net, s': Net, d: Port, l: Lsp, r: Port)
    requires IsLspDelivery(s, s', d, l) && IsPort(s', r)
    ensures NoneLost(s, s', r)
  {
    ReceiveLspEvolves(s.nodes[d.node], d.intf, l);
  }

  /** At the receiving router: the flag is set on every other port, and the port it came
      in on leads to a router that has it. */
  lemma ReceivedIsFlooded(peer: Cabling, s: Net, s': Net, d: Port, l: Lsp, q: Port)
    requires IsLspDelivery(s, s', d, l) && IsNewer(s.nodes[d.node].db, l)
    requires q in peer && IsPort(s', q) && IsPort(s', peer[q]) && q.node == d.node
    requires q == d ==> Has(s'.nodes[peer[d].node], l.key, SequenceNumber(l))
    ensures l.key in s'.nodes[q.node].db && Flooded(peer, s', q, l.key)
  {
  }

  lemma ReceiveUndisturbed(s: Net, s': Net, d: Port, l: Lsp, q: Port, j: nat)
    requires IsLspDelivery(s, s', d, l) && IsPort(s, q) && IsPort(s', q)
    requires j in s'.nodes[q.node].db
    requires !(q.node == d.node && j == l.key && IsNewer(s.nodes[d.node].db, l))
    ensures Undisturbed(s, s', q, j)
  {
  }

  lemma ReceiveFloods(peer: Cabling, s: Net, s': Net, d: Port, l: Lsp)
    requires IsLspDelivery(s, s', d, l) && Cabled(peer, s) && Cabled(peer, s') && Evolves(s, s')
    requires AllFlooded(peer, s) && d in peer && Has(s'.nodes[peer[d].node], l.key, SequenceNumber(l))
    ensures AllFlooded(peer, s')
  {
    forall r | r in peer ensures NoneLost(s, s', r) {
      ReceiveLosesNone(s, s', d, l, r);
    }
    forall q, j | q in peer && j in s'.nodes[q.node].db
      ensures Undisturbed(s, s', q, j) || Flooded(peer, s', q, j)
    {
      if q.node == d.node && j == l.key && IsNewer(s.nodes[d.node].db, l) {
        ReceivedIsFlooded(peer, s, s', d, l, q);
      } else {
        ReceiveUndisturbed(s, s', d, l, q, j);
      }
    }
    AllFloodedKept(peer, s, s');
  }

  lemma ReceivePackets(peer: Cabling, s: Net, s': Net, d: Port, l: Lsp)
    requires IsLspDelivery(s, s', d, l) && Cabled(peer, s) && PacketsOk(peer, s) && Evolves(s, s')
    ensures PacketsOk(peer, s')
    ensures d in peer && IsPort(s', peer[d]) && Has(s'.nodes[peer[d].node], l.key, SequenceNumber(l))
  {
    PacketsKept(peer, s, s');
    PacketKept(peer, s, s', Packet(d, LspMsg(l)));
  }

  lemma ReceiveStepKeeps(peer: Cabling, s: Net, s': Net, d: Port, l: Lsp)
    requires Inv(peer, s) && IsLspDelivery(s, s', d, l) && l in s.log
    ensures Inv(peer, s')
  {
    ReceiveNodes(s, s', d, l);
    CabledKept(peer, s, s');
    ReceiveAdjs(peer, s, s', d, l);
    LogKept(peer, s, s');
    ReceivePackets(peer, s, s', d, l);
    ReceiveFloods(peer, s, s', d, l);
  }

  lemma DeliverLspKeeps(peer: Cabling, s: Net, d: Port, l: Lsp)
    requires Inv(peer, s) && IsPort(s, d) && Packet(d, LspMsg(l)) in s.flight
    ensures Inv(peer, DeliverLsp(s, Packet(d, LspMsg(l)), l))
  {
    assert PacketOk(peer, s, Packet(d, LspMsg(l)));
    ReceiveStepKeeps(peer, s, DeliverLsp(s, Packet(d, LspMsg(l)), l), d, l);
  }

  // ----- Hello delivery: a greeting ------------------------------------------------------------

  ghost predicate IsGreeting(peer: Cabling, s: Net, s': Net, d: Port, h: Hello) {
    && IsPort(s, d) && d in peer
    && s' == Net(s.nodes[d.node := SetAdj(s.nodes[d.node], d.intf, Initialized(IntfAt(s, d).adj))],
                 s.flight - multiset{Packet(d, HelloMsg(h))}
                 + multiset{Packet(peer[d], HelloMsg(Reply(s.nodes[d.node], d.intf, h.sourceMac)))},
                 s.log, s.heard + {d})
  }

  lemma GreetNodes(peer: Cabling, s: Net, s': Net, d: Port, h: Hello)
    requires IsGreeting(peer, s, s', d, h) && NodesOk(s)
    ensures Evolves(s, s') && NodesOk(s')
  {
    GreetingKeeps(s, s.nodes[d.node], d.intf);
    OneNodeEvolves(s, s', d.node);
    NodesKept(s, s', d.node);
  }

  lemma GreetedAdjOk(peer: Cabling, s: Net, s': Net, d: Port, h: Hello)
    requires IsGreeting(peer, s, s', d, h) && AdjOk(peer, s, d) && Evolves(s, s') && IsPort(s, peer[d])
    ensures IsPort(s', d) && AdjOk(peer, s', d)
  {
    assert NodeEvolves(s.nodes[peer[d].node], s'.nodes[peer[d].node]);
  }

  lemma GreetAdjs(peer: Cabling, s: Net, s': Net, d: Port, h: Hello)
    requires IsGreeting(peer, s, s', d, h) && IsPort(s, peer[d]) && AdjsOk(peer, s) && Evolves(s, s')
    ensures AdjsOk(peer, s')
  {
    GreetedAdjOk(peer, s, s', d, h);
    forall p | IsPort(s', p) && p !in {d}
      ensures IsPort(s, p) && IntfAt(s', p).adj == IntfAt(s, p).adj && (p in s'.heard ==> p in s.heard)
    {
    }
    AdjsKept(peer, s, s', {d});
  }

  lemma GreetPackets(peer: Cabling, s: Net, s': Net, d: Port, h: Hello)
    requires IsGreeting(peer, s, s', d, h) && Cabled(peer, s) && PacketsOk(peer, s) && Evolves(s, s')
    requires h.sourceMac == IntfAt(s, peer[d]).mac
    ensures PacketsOk(peer, s')
  {
    ReplyIsOk(peer, s, s', d, h);
    PacketsKept(peer, s, s');
  }

  lemma ReplyIsOk(peer: Cabling, s: Net, s': Net, d: Port, h: Hello)
    requires IsGreeting(peer, s, s', d, h) && Cabled(peer, s) && Evolves(s, s')
    requires h.sourceMac == IntfAt(s, peer[d]).mac
    ensures PacketOk(peer, s', Packet(peer[d], HelloMsg(Reply(s.nodes[d.node], d.intf, h.sourceMac))))
  {
    assert NodeEvolves(s.nodes[peer[d].node], s'.nodes[peer[d].node]);
    assert peer[peer[d]] == d;
  }

  lemma GreetUndisturbed(peer: Cabling, s: Net, s': Net, d: Port, h: Hello, q: Port, j: nat)
    requires IsGreeting(peer, s, s', d, h) && IsPort(s, q) && IsPort(s', q) && j in s'.nodes[q.node].db
    ensures Undisturbed(s, s', q, j)
  {
  }

  lemma GreetFloods(peer: Cabling, s: Net, s': Net, d: Port, h: Hello)
    requires IsGreeting(peer, s, s', d, h) && Cabled(peer, s) && Cabled(peer, s') && Evolves(s, s')
    requires AllFlooded(peer, s)
    ensures AllFlooded(peer, s')
  {
    forall q, j | q in peer && j in s'.nodes[q.node].db ensures Undisturbed(s, s', q, j) {
      GreetUndisturbed(peer, s, s', d, h, q, j);
    }
    AllFloodedKept(peer, s, s');
  }

  lemma GreetKeeps(peer: Cabling, s: Net, s': Net, d: Port, h: Hello)
    requires Inv(peer, s) && IsGreeting(peer, s, s', d, h) && h.sourceMac == IntfAt(s, peer[d]).mac
    ensures Inv(peer, s')
  {
    GreetNodes(peer, s, s', d, h);
    CabledKept(peer, s, s');
    GreetAdjs(peer, s, s', d, h);
    LogKept(peer, s, s');
    GreetPackets(peer, s, s', d, h);
    GreetFloods(peer, s, s', d, h);
  }

  // ----- Hello delivery: a confirmation ----------------------------------------------------------

  ghost function Confirmed(s: Net, d: Port, h: Hello): Node
    requires IsPort(s, d)
  {
    SetAdj(s.nodes[d.node], d.intf, BroughtUp(IntfAt(s, d).adj, h))
  }

  ghost predicate IsConfirm(peer: Cabling, s: Net, s': Net, d: Port, h: Hello) {
    && IsPort(s, d) && d in peer && s.nodes[d.node].sequenceNumber < MAX_UINT32
    && s' == Net(s.nodes[d.node := GenerateLocal(Confirmed(s, d, h))],
                 s.flight - multiset{Packet(d, HelloMsg(h))},
                 s.log + {NewLsp(Confirmed(s, d, h))}, s.heard)
  }

  lemma ConfirmNodes(peer: Cabling, s: Net, s': Net, d: Port, h: Hello)
    requires IsConfirm(peer, s, s', d, h) && NodesOk(s)
    ensures Evolves(s, s') && NodesOk(s')
  {
    var a := BroughtUp(IntfAt(s, d).adj, h);
    ConfirmEvolves(s, s.nodes[d.node], d.intf, a);
    ConfirmKeeps(s, s.nodes[d.node], d.intf, a, s');
    OneNodeEvolves(s, s', d.node);
    NodesKept(s, s', d.node);
  }

  /** What an interface advertises as UP is the router at the other end. */
  lemma {:induction false} UpIdsAreRouters(intfs: seq<Intf>, id: Bytes6)
    requires id in UpIds(intfs)
    ensures exists i :: 0 <= i < |intfs| && intfs[i].adj.state == UP && intfs[i].adj.neighborSystemID == id
  {
    var init := intfs[..|intfs| - 1];
    if id in UpIds(init) {
      UpIdsAreRouters(init, id);
      var i :| 0 <= i < |init| && init[i].adj.state == UP && init[i].adj.neighborSystemID == id;
      assert intfs[i] == init[i];
    }
  }

  /** A router's present TLVs list its UP adjacencies. */
  lemma OwnTlvsListUp(s: Net, a: nat, n: Neighbor)
    requires a < |s.nodes| && AllReadable(OwnTlvs(s.nodes[a].intfs))
    requires n in LookupNeighbors(OwnTlvs(s.nodes[a].intfs))
    ensures n.metric == 10 && HasUp(s, OwnKey(s.nodes[a]), n.systemID)
  {
    var intfs := s.nodes[a].intfs;
    LocalTlvsListOnlyAdjacencies(AllRoutes(intfs), UpIds(intfs), n);
    var i :| 0 <= i < |UpIds(intfs)| && n.systemID == SystemId.Text(UpIds(intfs)[i]);
    UpIdsAreRouters(intfs, UpIds(intfs)[i]);
    var j :| 0 <= j < |intfs| && intfs[j].adj.state == UP && intfs[j].adj.neighborSystemID == UpIds(intfs)[i];
    assert IsPort(s, Port(a, j)) && NeighborId(IntfAt(s, Port(a, j)).adj) == n.systemID;
  }

  /** UP adjacencies are on cabled ports, so there are no more of them. */
  lemma UpIdsFit(peer: Cabling, s: Net, a: nat)
    requires AdjsOk(peer, s) && a < |s.nodes|
    ensures |UpIds(s.nodes[a].intfs)| <= |PortsOf(peer, a)|
  {
    forall i | 0 <= i < |s.nodes[a].intfs| && s.nodes[a].intfs[i].adj.state == UP
      ensures Port(a, i) in PortsOf(peer, a)
    {
      assert AdjOk(peer, s, Port(a, i));
    }
    UpIdsCount(s.nodes[a].intfs, a, PortsOf(peer, a));
  }

  lemma {:induction false} UpIdsCount(intfs: seq<Intf>, a: nat, ps: set<Port>)
    requires forall i :: 0 <= i < |intfs| && intfs[i].adj.state == UP ==> Port(a, i) in ps
    ensures |UpIds(intfs)| <= |ps|
  {
    if intfs != [] {
      var last := |intfs| - 1;
      var rest := if intfs[last].adj.state == UP then ps - {Port(a, last)} else ps;
      UpIdsCount(intfs[..last], a, rest);
    }
  }

  lemma NewIsOwned(peer: Cabling, s: Net, s': Net, d: Port, h: Hello)
    requires IsConfirm(peer, s, s', d, h) && Cabled(peer, s') && AdjsOk(peer, s')
    ensures var l := NewLsp(Confirmed(s, d, h));
      && Owned(s', l) && l.key == OwnKey(s.nodes[d.node])
      && SequenceNumber(l) == s.nodes[d.node].sequenceNumber + 1
  {
    var m := Confirmed(s, d, h);
    var l := NewLsp(m);
    NewLspIs(m);
    assert OwnKey(s'.nodes[d.node]) == OwnKey(s.nodes[d.node]);
    SameAdvertSameTlvs(m.intfs, s'.nodes[d.node].intfs);
    assert WithinLimits(peer, s', d.node);
    UpIdsFit(peer, s', d.node);
    LocalTlvsListAdjacencies(AllRoutes(m.intfs), UpIds(m.intfs));
    forall n | n in LookupNeighbors(l.core.tlvs) ensures n.metric == 10 && HasUp(s', l.key, n.systemID) {
      OwnTlvsListUp(s', d.node, n);
    }
  }

  lemma ConfirmLog(peer: Cabling, s: Net, s': Net, d: Port, h: Hello)
    requires IsConfirm(peer, s, s', d, h) && LogOk(s) && Evolves(s, s') && Cabled(peer, s') && AdjsOk(peer, s) && AdjsOk(peer, s')
    requires forall i, j :: 0 <= i < j < |s.nodes| ==> s.nodes[i].sid != s.nodes[j].sid
    ensures LogOk(s')
  {
    NewIsOwned(peer, s, s', d, h);
    GrownLogOk(peer, s, s', NewLsp(Confirmed(s, d, h)), d.node);
  }

  lemma GrownLogOk(peer: Cabling, s: Net, s': Net, l: Lsp, a: nat)
    requires LogOk(s) && Evolves(s, s') && AdjsOk(peer, s) && AdjsOk(peer, s')
    requires s'.log == s.log + {l} && Owned(s', l)
    requires a < |s.nodes| && l.key == OwnKey(s.nodes[a]) && SequenceNumber(l) == s.nodes[a].sequenceNumber + 1
    requires forall i, j :: 0 <= i < j < |s.nodes| ==> s.nodes[i].sid != s.nodes[j].sid
    ensures LogOk(s')
  {
    forall m | m in s.log ensures Owned(s', m) {
      OwnedKept(peer, s, s', m);
    }
    forall m | m in s.log && m.key == l.key ensures SequenceNumber(m) < SequenceNumber(l) {
      OlderThanNew(s, a, m);
    }
    AgreeGrows(s.log, l);
  }

  lemma AgreeGrows(log: set<Lsp>, l: Lsp)
    requires Agree(log) && forall m :: m in log && m.key == l.key ==> SequenceNumber(m) < SequenceNumber(l)
    ensures Agree(log + {l})
  {
  }

  /** A logged LSP of router a is numbered within a's counter. */
  lemma OlderThanNew(s: Net, a: nat, l: Lsp)
    requires LogOk(s) && a < |s.nodes| && l in s.log && l.key == OwnKey(s.nodes[a])
    requires forall i, j :: 0 <= i < j < |s.nodes| ==> s.nodes[i].sid != s.nodes[j].sid
    ensures 1 <= SequenceNumber(l) <= s.nodes[a].sequenceNumber
  {
    assert Owned(s, l);
    var o :| 0 <= o < |s.nodes| && OwnKey(s.nodes[o]) == l.key
             && 1 <= SequenceNumber(l) <= s.nodes[o].sequenceNumber;
    OwnKeyInjective(s.nodes[o], s.nodes[a]);
    assert o == a;
  }

  /** The hello that confirms comes from the other end and names it. */
  ghost predicate FromPeer(peer: Cabling, s: Net, d: Port, h: Hello)
    requires d in peer && IsPort(s, d) && IsPort(s, peer[d])
  {
    && h.source == s.nodes[peer[d].node].sid && peer[d] in s.heard
    && h.tlvs == ReplyTlvs(IntfAt(s, d).mac, IntfAt(s, peer[d]).prefix)
  }

  lemma ConfirmedAdjOk(peer: Cabling, s: Net, s': Net, d: Port, h: Hello)
    requires IsConfirm(peer, s, s', d, h) && IsPort(s, peer[d]) && FromPeer(peer, s, d, h) && Evolves(s, s')
    ensures IsPort(s', d) && AdjOk(peer, s', d)
  {
    assert NodeEvolves(s.nodes[peer[d].node], s'.nodes[peer[d].node]);
    assert Address(IntfAt(s, peer[d]).prefix) == IntfAt(s, peer[d]).prefix;
    assert IntfAt(s', d).adj == BroughtUp(IntfAt(s, d).adj, h);
  }

  lemma ConfirmAdjs(peer: Cabling, s: Net, s': Net, d: Port, h: Hello)
    requires IsConfirm(peer, s, s', d, h) && IsPort(s, peer[d]) && FromPeer(peer, s, d, h)
    requires AdjsOk(peer, s) && Evolves(s, s')
    ensures AdjsOk(peer, s')
  {
    ConfirmedAdjOk(peer, s, s', d, h);
    forall p | IsPort(s', p) && p !in {d}
      ensures IsPort(s, p) && IntfAt(s', p).adj == IntfAt(s, p).adj && (p in s'.heard ==> p in s.heard)
    {
    }
    AdjsKept(peer, s, s', {d});
  }

  lemma ConfirmPackets(peer: Cabling, s: Net, s': Net, d: Port, h: Hello)
    requires IsConfirm(peer, s, s', d, h) && Cabled(peer, s) && PacketsOk(peer, s) && Evolves(s, s')
    ensures PacketsOk(peer, s')
  {
    PacketsKept(peer, s, s');
  }

  lemma ConfirmDisturbsOwnOnly(peer: Cabling, s: Net, s': Net, d: Port, h: Hello, q: Port, j: nat)
    requires IsConfirm(peer, s, s', d, h) && q in peer && IsPort(s, q) && IsPort(s', q) && IsPort(s', peer[q])
    requires j in s'.nodes[q.node].db
    ensures Undisturbed(s, s', q, j) || Flooded(peer, s', q, j)
  {
  }

  lemma ConfirmFloods(peer: Cabling, s: Net, s': Net, d: Port, h: Hello)
    requires IsConfirm(peer, s, s', d, h) && Cabled(peer, s) && Cabled(peer, s') && Evolves(s, s')
    requires AllFlooded(peer, s)
    ensures AllFlooded(peer, s')
  {
    forall q, j | q in peer && j in s'.nodes[q.node].db
      ensures Undisturbed(s, s', q, j) || Flooded(peer, s', q, j)
    {
      ConfirmDisturbsOwnOnly(peer, s, s', d, h, q, j);
    }
    AllFloodedKept(peer, s, s');
  }

  lemma ConfirmStepKeeps(peer: Cabling, s: Net, s': Net, d: Port, h: Hello)
    requires Inv(peer, s) && IsConfirm(peer, s, s', d, h) && FromPeer(peer, s, d, h)
    ensures Inv(peer, s')
  {
    ConfirmNodes(peer, s, s', d, h);
    CabledKept(peer, s, s');
    ConfirmAdjs(peer, s, s', d, h);
    ConfirmLog(peer, s, s', d, h);
    ConfirmPackets(peer, s, s', d, h);
    ConfirmFloods(peer, s, s', d, h);
  }

  lemma DropIsQuiet(peer: Cabling, s: Net, d: Port, h: Hello)
    ensures OnlyFlightChanged(peer, s, s.(flight := s.flight - multiset{Packet(d, HelloMsg(h))}))
  {
  }

  lemma DropKeeps(peer: Cabling, s: Net, d: Port, h: Hello)
    requires Inv(peer, s)
    ensures Inv(peer, s.(flight := s.flight - multiset{Packet(d, HelloMsg(h))}))
  {
    DropIsQuiet(peer, s, d, h);
    QuietStep(peer, s, s.(flight := s.flight - multiset{Packet(d, HelloMsg(h))}));
  }

  lemma DeliverHelloIs(peer: Cabling, s: Net, d: Port, h: Hello)
    requires IsPort(s, d) && d in peer && s.nodes[d.node].sequenceNumber < MAX_UINT32
    ensures var s' := DeliverHello(peer, s, Packet(d, HelloMsg(h)), h);
      match Classify(s.nodes[d.node], d.intf, h)
      case OwnHello => s' == s.(flight := s.flight - multiset{Packet(d, HelloMsg(h))})
      case Other => s' == s.(flight := s.flight - multiset{Packet(d, HelloMsg(h))})
      case Greeting => IsGreeting(peer, s, s', d, h)
      case Confirms => IsConfirm(peer, s, s', d, h)
  {
    NewLspIs(Confirmed(s, d, h));
  }

  lemma DeliverHelloKeeps(peer: Cabling, s: Net, d: Port, h: Hello)
    requires Inv(peer, s) && Enabled(s, Deliver(Packet(d, HelloMsg(h))))
    ensures Inv(peer, DeliverHello(peer, s, Packet(d, HelloMsg(h)), h))
  {
    var s' := DeliverHello(peer, s, Packet(d, HelloMsg(h)), h);
    assert PacketOk(peer, s, Packet(d, HelloMsg(h)));
    DeliverHelloIs(peer, s, d, h);
    match Classify(s.nodes[d.node], d.intf, h) {
      case OwnHello => DropKeeps(peer, s, d, h);
      case Other => DropKeeps(peer, s, d, h);
      case Greeting => GreetKeeps(peer, s, s', d, h);
      case Confirms => ConfirmStepKeeps(peer, s, s', d, h);
    }
  }

  // ----- Whole runs ---------------------------------------------------------------------------------

  lemma StepKeeps(peer: Cabling, s: Net, e: Event)
    requires Inv(peer, s) && Enabled(s, e)
    ensures Inv(peer, Apply(peer, s, e))
  {
    match e {
      case HelloTimer(p) => HelloTimerKeeps(peer, s, p);
      case LspTimer(p, k) => LspTimerKeeps(peer, s, p, k);
      case Deliver(pkt) =>
        match pkt.msg {
          case LspMsg(l) => DeliverLspKeeps(peer, s, pkt.dst, l);
          case HelloMsg(h) => DeliverHelloKeeps(peer, s, pkt.dst, h);
        }
    }
  }

  lemma {:induction false} BootedAdvertisesNothing(intfs: seq<Intf>)
    requires forall i :: 0 <= i < |intfs| ==> intfs[i].adj.state == NEW
    ensures UpIds(intfs) == []
  {
    if intfs != [] {
      BootedAdvertisesNothing(intfs[..|intfs| - 1]);
    }
  }

  lemma InitialInv(peer: Cabling, s: Net)
    requires Initial(s) && Cabled(peer, s)
    ensures Inv(peer, s)
  {
    forall a | 0 <= a < |s.nodes| ensures NodeOk(s, s.nodes[a]) {
      assert Booted(s.nodes[a]);
      BootedAdvertisesNothing(s.nodes[a].intfs);
    }
    forall p | IsPort(s, p) ensures AdjOk(peer, s, p) {
      assert Booted(s.nodes[p.node]);
    }
    assert forall p :: p in peer ==> Booted(s.nodes[p.node]);
  }

  /** The invariant holds after every run from boot. */
  lemma {:induction false} RunKeeps(peer: Cabling, s: Net, es: seq<Event>)
    requires Inv(peer, s) && IsRun(peer, s, es)
    ensures Inv(peer, After(peer, s, es))
    decreases |es|
  {
    if es != [] {
      StepKeeps(peer, s, es[0]);
      RunKeeps(peer, Apply(peer, s, es[0]), es[1..]);
    }
  }
}
