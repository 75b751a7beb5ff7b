/** The network as a step system: routers, two-ended lossless links, and the hello
    and LSP messages in flight on them. */
module Network {
  import opened Bytes
  import opened TlvList
  import opened Lsps
  import opened Hellos
  import opened Interfaces
  import opened Nodes
  import opened Wire
  import SystemId

  datatype Port = Port(node: nat, intf: nat)

  datatype Packet = Packet(dst: Port, msg: Msg)

  /** flight: messages on their way; log: every LSP ever generated, by anyone;
      heard: ports that have taken a greeting. log and heard are history only. */
  datatype Net = Net(nodes: seq<Node>, flight: multiset<Packet>, log: set<Lsp>, heard: set<Port>)

  /** The far end of each cabled port. */
  type Cabling = map<Port, Port>

  /** A timer of isisHelloSend or isisUpdate fires at a port, or a packet arrives. */
  datatype Event = HelloTimer(port: Port) | LspTimer(port: Port, key: nat) | Deliver(pkt: Packet)

  predicate IsPort(s: Net, p: Port) {
    p.node < |s.nodes| && p.intf < |s.nodes[p.node].intfs|
  }

  function IntfAt(s: Net, p: Port): Intf
    requires IsPort(s, p)
  {
    s.nodes[p.node].intfs[p.intf]
  }

  /** Links have two ends at different routers; system IDs are distinct; and what the
      routers have to advertise fits their TLVs. */
  ghost predicate Cabled(peer: Cabling, s: Net) {
    && (forall p :: p in peer ==>
          && IsPort(s, p) && peer[p] in peer && peer[peer[p]] == p && peer[p].node != p.node)
    && (forall a, b :: 0 <= a < b < |s.nodes| ==> s.nodes[a].sid != s.nodes[b].sid)
    && (forall a :: 0 <= a < |s.nodes| ==> WithinLimits(peer, s, a))
  }

  /** The cabled ports of router a. */
  ghost function PortsOf(peer: Cabling, a: nat): set<Port> {
    set p | p in peer && p.node == a
  }

  /** At most 23 links and 21 routes: with more, a router's LSP does not survive the wire
      once it is complete (Wire.LocalLspSurvivesIff). */
  ghost predicate WithinLimits(peer: Cabling, s: Net, a: nat)
    requires a < |s.nodes|
  {
    |PortsOf(peer, a)| <= 23 && |AllRoutes(s.nodes[a].intfs)| <= 21
  }

  // ----- Steps -------------------------------------------------------------------------

  /** What goes out of port p: lost only if nothing is plugged in. */
  function Sent(peer: Cabling, p: Port, m: Msg): multiset<Packet> {
    if p in peer then multiset{Packet(peer[p], m)} else multiset{}
  }

  predicate Enabled(s: Net, e: Event) {
    match e
    case HelloTimer(p) => IsPort(s, p) && IntfAt(s, p).adj.state != UP
    case LspTimer(p, k) => IsPort(s, p) && MaySend(s.nodes[p.node], p.intf, k)
    case Deliver(pkt) =>
      && pkt in s.flight && IsPort(s, pkt.dst)
      // fewer than 2^32 LSPs are generated by one router
      && (pkt.msg.HelloMsg? ==> s.nodes[pkt.dst.node].sequenceNumber < MAX_UINT32)
  }

  function Apply(peer: Cabling, s: Net, e: Event): Net
    requires Enabled(s, e)
  {
    match e
    case HelloTimer(p) =>
      s.(flight := s.flight + Sent(peer, p, HelloMsg(PlainHello(s.nodes[p.node], p.intf))))
    case LspTimer(p, k) =>
      var n := s.nodes[p.node];
      s.(nodes := s.nodes[p.node := ClearSrm(n, p.intf, k)],
         flight := s.flight + Sent(peer, p, LspMsg(n.db[k])))
    case Deliver(pkt) =>
      match pkt.msg
      case LspMsg(l) => DeliverLsp(s, pkt, l)
      case HelloMsg(h) => DeliverHello(peer, s, pkt, h)
  }

  function DeliverLsp(s: Net, pkt: Packet, l: Lsp): Net
    requires IsPort(s, pkt.dst)
  {
    s.(nodes := s.nodes[pkt.dst.node := ReceiveLsp(s.nodes[pkt.dst.node], pkt.dst.intf, l)],
       flight := s.flight - multiset{pkt})
  }

  function DeliverHello(peer: Cabling, s: Net, pkt: Packet, h: Hello): Net
    requires IsPort(s, pkt.dst)
  {
    var p := pkt.dst;
    var n := s.nodes[p.node];
    var (n', reply) := ReceiveHello(n, p.intf, h);
    var kind := Classify(n, p.intf, h);
    Net(s.nodes[p.node := n'],
        s.flight - multiset{pkt} + (if reply.Some? then Sent(peer, p, HelloMsg(reply.value)) else multiset{}),
        if kind == Confirms then s.log + {n'.db[OwnKey(n')]} else s.log,
        if kind == Greeting then s.heard + {p} else s.heard)
  }

  // ----- Runs -----------------------------------------------------------------------------

  /** Every event is enabled when its turn comes. */
  predicate IsRun(peer: Cabling, s: Net, es: seq<Event>)
    decreases |es|
  {
    es == [] || (Enabled(s, es[0]) && IsRun(peer, Apply(peer, s, es[0]), es[1..]))
  }

  function After(peer: Cabling, s: Net, es: seq<Event>): Net
    requires IsRun(peer, s, es)
    decreases |es|
  {
    if es == [] then s else After(peer, Apply(peer, s, es[0]), es[1..])
  }

  /** The run es leads from s to t. */
  ghost predicate Leads(peer: Cabling, s: Net, es: seq<Event>, t: Net) {
    IsRun(peer, s, es) && After(peer, s, es) == t
  }

  lemma LeadsFirst(peer: Cabling, s: Net, e: Event, rest: seq<Event>, t: Net)
    requires Enabled(s, e)
    ensures Leads(peer, s, [e] + rest, t) <==> Leads(peer, Apply(peer, s, e), rest, t)
  {
    assert ([e] + rest)[1..] == rest;
  }

  lemma LeadsOne(peer: Cabling, s: Net, e: Event)
    requires Enabled(s, e)
    ensures Leads(peer, s, [e], Apply(peer, s, e))
  {
    LeadsFirst(peer, s, e, [], Apply(peer, s, e));
    assert [e] + [] == [e];
  }

  lemma {:induction false} LeadsThen(peer: Cabling, s: Net, es: seq<Event>, t: Net, fs: seq<Event>, u: Net)
    requires Leads(peer, s, es, t) && Leads(peer, t, fs, u)
    ensures Leads(peer, s, es + fs, u)
    decreases |es|
  {
    if es == [] {
      assert es + fs == fs;
    } else {
      var s' := AfterFirst(peer, s, es, t);
      LeadsThen(peer, s', es[1..], t, fs, u);
      BeforeFirst(peer, s, es, s', fs, u);
    }
  }

  lemma AfterFirst(peer: Cabling, s: Net, es: seq<Event>, t: Net) returns (s': Net)
    requires Leads(peer, s, es, t) && es != []
    ensures Enabled(s, es[0]) && s' == Apply(peer, s, es[0]) && Leads(peer, s', es[1..], t)
  {
    s' := Apply(peer, s, es[0]);
  }

  lemma BeforeFirst(peer: Cabling, s: Net, es: seq<Event>, s': Net, fs: seq<Event>, u: Net)
    requires es != [] && Enabled(s, es[0]) && s' == Apply(peer, s, es[0]) && Leads(peer, s', es[1..] + fs, u)
    ensures Leads(peer, s, es + fs, u)
  {
    LeadsFirst(peer, s, es[0], es[1..] + fs, u);
    assert es + fs == [es[0]] + (es[1..] + fs);
  }

  /** Routers as initInterfaces leaves them: no LSPs, every adjacency NEW. */
  ghost predicate Initial(s: Net) {
    && s.flight == multiset{} && s.log == {} && s.heard == {}
    && forall a :: 0 <= a < |s.nodes| ==> Booted(s.nodes[a])
  }

  ghost predicate Booted(n: Node) {
    && n.sequenceNumber == 0 && n.db == map[]
    && forall i :: 0 <= i < |n.intfs| ==> n.intfs[i].adj.state == NEW && n.intfs[i].flood == map[]
  }

  // ----- The invariant ------------------------------------------------------------------------

  /** n holds a copy of k at least as new as q. */
  predicate Has(n: Node, k: nat, q: int) {
    k in n.db && SequenceNumber(n.db[k]) >= q
  }

  /** Every LSP was made by the owner of its key, its number is not beyond the owner's
      counter, its length bytes match, and what it lists is still UP. */
  ghost predicate Owned(s: Net, l: Lsp) {
    && WellKeyed(l) && l.core.header == LSP_PDU_HEADER && Matches(l.core.tlvs) && ListsUpPorts(s, l)
    && exists o :: 0 <= o < |s.nodes| && OwnKey(s.nodes[o]) == l.key
                   && 1 <= SequenceNumber(l) <= s.nodes[o].sequenceNumber
  }

  /** Every neighbour listed has metric 10 and an adjacency of the owner that is UP now. */
  ghost predicate ListsUpPorts(s: Net, l: Lsp) {
    && AllReadable(l.core.tlvs)
    && forall n :: n in LookupNeighbors(l.core.tlvs) ==> n.metric == 10 && HasUp(s, l.key, n.systemID)
  }

  ghost predicate HasUp(s: Net, key: nat, id: string) {
    exists p :: IsPort(s, p) && OwnKey(s.nodes[p.node]) == key
                && IntfAt(s, p).adj.state == UP && NeighborId(IntfAt(s, p).adj) == id
  }

  function Name(s: Net, a: nat): string
    requires a < |s.nodes|
  {
    SystemId.Text(s.nodes[a].sid)
  }

  ghost predicate IsName(s: Net, id: string) {
    exists a :: 0 <= a < |s.nodes| && Name(s, a) == id
  }

  /** Provenance and agreement of the log. */
  ghost predicate LogOk(s: Net) {
    && (forall l :: l in s.log ==> Owned(s, l))
    && Agree(s.log)
  }

  /** A key and a sequence number determine the content. */
  ghost predicate Agree(log: set<Lsp>) {
    forall l, m :: l in log && m in log && l.key == m.key && SequenceNumber(l) == SequenceNumber(m) ==> l == m
  }

  /** Databases hold logged LSPs under their own keys, and each interface has a flood
      state for exactly the keys of the database. */
  ghost predicate NodeOk(s: Net, n: Node) {
    && (forall k :: k in n.db ==> n.db[k] in s.log && n.db[k].key == k)
    && (forall i :: 0 <= i < |n.intfs| ==> n.intfs[i].flood.Keys == n.db.Keys)
    && OwnLspOk(n)
  }

  /** A router's own LSP is current: it carries the counter and lists exactly the UP
      adjacencies; before the first generation there is none and nothing is UP. */
  ghost predicate OwnLspOk(n: Node) {
    if n.sequenceNumber == 0 then OwnKey(n) !in n.db && UpIds(n.intfs) == []
    else
      && OwnKey(n) in n.db && SequenceNumber(n.db[OwnKey(n)]) == n.sequenceNumber
      && n.db[OwnKey(n)].core.tlvs == OwnTlvs(n.intfs)
  }

  /** An UP adjacency names the router at the other end, which took a greeting from us. */
  ghost predicate AdjOk(peer: Cabling, s: Net, p: Port)
    requires IsPort(s, p)
  {
    && (IntfAt(s, p).adj.state == UP ==>
          && p in peer && IsPort(s, peer[p]) && peer[p] in s.heard
          && IntfAt(s, p).adj.neighborSystemID == s.nodes[peer[p].node].sid
          && IntfAt(s, p).adj.neighborIP == IntfAt(s, peer[p]).prefix
          && IntfAt(s, p).adj.metric == 10)
    && (p in s.heard ==> IntfAt(s, p).adj.state != NEW)
  }

  ghost predicate PacketOk(peer: Cabling, s: Net, pkt: Packet) {
    && pkt.dst in peer && IsPort(s, pkt.dst) && IsPort(s, peer[pkt.dst])
    && var sender := peer[pkt.dst];
       match pkt.msg
       case LspMsg(l) => l in s.log && Has(s.nodes[sender.node], l.key, SequenceNumber(l))
       case HelloMsg(h) =>
         && h.source == s.nodes[sender.node].sid && h.sourceMac == IntfAt(s, sender).mac
         && (h.tlvs == [] ||
              (h.tlvs == ReplyTlvs(IntfAt(s, pkt.dst).mac, IntfAt(s, sender).prefix) && sender in s.heard))
  }

  ghost predicate InFlight(s: Net, dst: Port, k: nat, q: int) {
    exists l :: Packet(dst, LspMsg(l)) in s.flight && l.key == k && SequenceNumber(l) >= q
  }

  /** Port p still owes nothing to its peer about k: the flag is set, a copy at least as
      new is on its way, or the peer has one. */
  ghost predicate Flooded(peer: Cabling, s: Net, p: Port, k: nat)
    requires p in peer && IsPort(s, p) && IsPort(s, peer[p]) && k in s.nodes[p.node].db
  {
    var q := SequenceNumber(s.nodes[p.node].db[k]);
    || (k in IntfAt(s, p).flood && IntfAt(s, p).flood[k])
    || InFlight(s, peer[p], k, q)
    || Has(s.nodes[peer[p].node], k, q)
  }

  ghost predicate NodesOk(s: Net) {
    forall a :: 0 <= a < |s.nodes| ==> NodeOk(s, s.nodes[a])
  }

  ghost predicate AdjsOk(peer: Cabling, s: Net) {
    forall p :: IsPort(s, p) ==> AdjOk(peer, s, p)
  }

  ghost predicate PacketsOk(peer: Cabling, s: Net) {
    forall pkt :: pkt in s.flight ==> PacketOk(peer, s, pkt)
  }

  ghost predicate AllFlooded(peer: Cabling, s: Net)
    requires Cabled(peer, s)
  {
    forall p, k :: p in peer && k in s.nodes[p.node].db ==> Flooded(peer, s, p, k)
  }

  ghost predicate Inv(peer: Cabling, s: Net) {
    && Cabled(peer, s) && LogOk(s) && NodesOk(s) && AdjsOk(peer, s) && PacketsOk(peer, s)
    && AllFlooded(peer, s)
  }
}
