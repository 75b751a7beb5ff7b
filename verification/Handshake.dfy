/** The three-way handshake on a link: what UP means, that adjacencies only move
    forward, and that one exchange is always enough. */
module Handshake {
  import opened Bytes
  import opened Hellos
  import opened Interfaces
  import opened Nodes
  import opened Wire
  import opened Network
  import opened Safety
  import opened Convergence
  import SystemId

  /** UP at one end: the other end took a greeting from us (and so is at least INIT), and
      the adjacency records that end's system ID and address. */
  lemma UpMeansHeard(peer: Cabling, s0: Net, es: seq<Event>, p: Port)
    requires ReachableBy(peer, s0, es)
    requires IsPort(After(peer, s0, es), p) && IntfAt(After(peer, s0, es), p).adj.state == UP
    ensures var s := After(peer, s0, es);
      && p in peer && IsPort(s, peer[p]) && peer[p] in s.heard
      && IntfAt(s, peer[p]).adj.state != NEW
      && IntfAt(s, p).adj.neighborSystemID == s.nodes[peer[p].node].sid
      && IntfAt(s, p).adj.neighborIP == IntfAt(s, peer[p]).prefix
  {
    var s := After(peer, s0, es);
    ReachableInv(peer, s0, es);
    assert AdjOk(peer, s, p);
    assert AdjOk(peer, s, peer[p]);
  }

  // ----- Never backwards ---------------------------------------------------------------------

  function Rank(a: AdjState): nat {
    match a case NEW => 0 case INIT => 1 case UP => 2
  }

  lemma NodeNeverBackwards(n: Node, i: nat, h: Hello, j: nat)
    requires i < |n.intfs| && j < |n.intfs|
    ensures var n' := ReceiveHello(n, i, h).0;
      |n'.intfs| == |n.intfs| && Rank(n.intfs[j].adj.state) <= Rank(n'.intfs[j].adj.state)
  {
  }

  /** No event moves any adjacency back. */
  lemma StepNeverBackwards(peer: Cabling, s: Net, e: Event, p: Port)
    requires Enabled(s, e) && IsPort(s, p)
    ensures var s' := Apply(peer, s, e);
      IsPort(s', p) && Rank(IntfAt(s, p).adj.state) <= Rank(IntfAt(s', p).adj.state)
  {
    match e {
      case HelloTimer(q) =>
      case LspTimer(q, k) =>
      case Deliver(pkt) =>
        match pkt.msg {
          case LspMsg(l) =>
          case HelloMsg(h) =>
            if pkt.dst.node == p.node {
              NodeNeverBackwards(s.nodes[p.node], pkt.dst.intf, h, p.intf);
            }
        }
    }
  }

  lemma {:induction false} RunNeverBackwards(peer: Cabling, s: Net, es: seq<Event>, p: Port)
    requires IsRun(peer, s, es) && IsPort(s, p)
    ensures var s' := After(peer, s, es);
      IsPort(s', p) && Rank(IntfAt(s, p).adj.state) <= Rank(IntfAt(s', p).adj.state)
    decreases |es|
  {
    if es != [] {
      StepNeverBackwards(peer, s, es[0], p);
      RunNeverBackwards(peer, Apply(peer, s, es[0]), es[1..], p);
    }
  }

  // ----- Progress -------------------------------------------------------------------------------

  lemma TextsDiffer(a: Node, b: Node)
    requires a.sid != b.sid
    ensures SystemId.Text(a.sid) != SystemId.Text(b.sid)
  {
    if SystemId.Text(a.sid) == SystemId.Text(b.sid) {
      SystemId.TextInjective(a.sid, b.sid);
    }
  }

  /** The greeting p sends, and the reply the other end gives to it. */
  function GreetingPacket(peer: Cabling, s: Net, p: Port): Packet
    requires p in peer && IsPort(s, p)
  {
    Packet(peer[p], HelloMsg(PlainHello(s.nodes[p.node], p.intf)))
  }

  function ReplyPacket(peer: Cabling, s: Net, p: Port): Packet
    requires p in peer && IsPort(s, p) && IsPort(s, peer[p])
  {
    Packet(p, HelloMsg(Reply(s.nodes[peer[p].node], peer[p].intf, IntfAt(s, p).mac)))
  }

  function Exchange(peer: Cabling, s: Net, p: Port): seq<Event>
    requires p in peer && IsPort(s, p) && IsPort(s, peer[p])
  {
    [HelloTimer(p), Deliver(GreetingPacket(peer, s, p)), Deliver(ReplyPacket(peer, s, p))]
  }

  /** p's greeting makes the other end reply, whatever state that end is in. */
  lemma GreetingIsAnswered(peer: Cabling, s: Net, p: Port)
    requires Cabled(peer, s) && p in peer && GreetingPacket(peer, s, p) in s.flight
    requires s.nodes[p.node].sid != s.nodes[peer[p].node].sid
    requires s.nodes[peer[p].node].sequenceNumber < MAX_UINT32
    ensures Enabled(s, Deliver(GreetingPacket(peer, s, p)))
    ensures var t := Apply(peer, s, Deliver(GreetingPacket(peer, s, p)));
      && ReplyPacket(peer, s, p) in t.flight && t.nodes[p.node] == s.nodes[p.node] && |t.nodes| == |s.nodes|
  {
    TextsDiffer(s.nodes[p.node], s.nodes[peer[p].node]);
  }

  /** The reply brings p UP. */
  lemma ReplyBringsUp(peer: Cabling, s: Net, p: Port, mac: Bytes6, sid: Bytes6, ip: Bytes4)
    requires IsPort(s, p) && s.nodes[p.node].sequenceNumber < MAX_UINT32 && sid != s.nodes[p.node].sid
    requires Packet(p, HelloMsg(Hello(mac, sid, ReplyTlvs(IntfAt(s, p).mac, ip)))) in s.flight
    ensures var e := Deliver(Packet(p, HelloMsg(Hello(mac, sid, ReplyTlvs(IntfAt(s, p).mac, ip)))));
      Enabled(s, e) && IsPort(Apply(peer, s, e), p) && IntfAt(Apply(peer, s, e), p).adj.state == UP
  {
    if SystemId.Text(sid) == SystemId.Text(s.nodes[p.node].sid) {
      SystemId.TextInjective(sid, s.nodes[p.node].sid);
    }
  }

  lemma ThreeSteps(peer: Cabling, s: Net, a: Event, t: Net, b: Event, u: Net, c: Event, v: Net)
    requires Enabled(s, a) && t == Apply(peer, s, a)
    requires Enabled(t, b) && u == Apply(peer, t, b)
    requires Enabled(u, c) && v == Apply(peer, u, c)
    ensures Leads(peer, s, [a, b, c], v)
  {
    LeadsOne(peer, s, a);
    LeadsOne(peer, t, b);
    LeadsOne(peer, u, c);
    LeadsThen(peer, s, [a], t, [b], u);
    LeadsThen(peer, s, [a] + [b], u, [c], v);
    assert [a] + [b] + [c] == [a, b, c];
  }

  /** The three steps of an exchange, and what they lead to. */
  lemma ExchangeSteps(peer: Cabling, s: Net, p: Port) returns (t: Net, u: Net, v: Net)
    requires Cabled(peer, s) && p in peer && IntfAt(s, p).adj.state != UP
    requires s.nodes[p.node].sequenceNumber < MAX_UINT32 && s.nodes[peer[p].node].sequenceNumber < MAX_UINT32
    ensures t.nodes == s.nodes
    ensures Enabled(s, HelloTimer(p)) && t == Apply(peer, s, HelloTimer(p))
    ensures var b := Deliver(GreetingPacket(peer, s, p)); Enabled(t, b) && u == Apply(peer, t, b)
    ensures var c := Deliver(ReplyPacket(peer, s, p)); Enabled(u, c) && v == Apply(peer, u, c)
    ensures IsPort(v, p) && IntfAt(v, p).adj.state == UP
    ensures OneMoreEach(u, v) && SameCounters(t, u)
  {
    t := Apply(peer, s, HelloTimer(p));
    assert t.nodes == s.nodes && GreetingPacket(peer, t, p) == GreetingPacket(peer, s, p);
    assert s.nodes[p.node].sid != s.nodes[peer[p].node].sid;
    QuietCabled(peer, s, t);
    GreetingIsAnswered(peer, t, p);
    u := Apply(peer, t, Deliver(GreetingPacket(peer, s, p)));
    var q := peer[p];
    ReplyBringsUp(peer, u, p, IntfAt(s, q).mac, s.nodes[q.node].sid, IntfAt(s, q).prefix);
    v := Apply(peer, u, Deliver(ReplyPacket(peer, s, p)));
    GreetingCountsNone(peer, t, p);
    DeliveryCountsOne(peer, u, ReplyPacket(peer, s, p));
  }

  /** From every state of every run, an end that is not UP comes UP by greeting, reply
      and receipt, even if the other end is already UP. */
  lemma HandshakeCompletes(peer: Cabling, s: Net, p: Port)
    requires Inv(peer, s) && p in peer && IntfAt(s, p).adj.state != UP
    requires s.nodes[p.node].sequenceNumber < MAX_UINT32 && s.nodes[peer[p].node].sequenceNumber < MAX_UINT32
    ensures var es := Exchange(peer, s, p);
      && IsRun(peer, s, es)
      && IsPort(After(peer, s, es), p) && IntfAt(After(peer, s, es), p).adj.state == UP
      && OneMoreEach(s, After(peer, s, es))
  {
    var t, u, v := ExchangeSteps(peer, s, p);
    var b, c := Deliver(GreetingPacket(peer, s, p)), Deliver(ReplyPacket(peer, s, p));
    ThreeSteps(peer, s, HelloTimer(p), t, b, u, c, v);
    CountersAdd(s, t, u, v);
  }

  /** At most one more LSP has been generated by each router. */
  ghost predicate OneMoreEach(s: Net, s': Net) {
    |s'.nodes| == |s.nodes| && forall a :: 0 <= a < |s.nodes| ==>
      s'.nodes[a].sequenceNumber <= s.nodes[a].sequenceNumber + 1
  }

  ghost predicate SameCounters(s: Net, t: Net) {
    |t.nodes| == |s.nodes| && forall a :: 0 <= a < |s.nodes| ==> t.nodes[a].sequenceNumber == s.nodes[a].sequenceNumber
  }

  lemma CountersAdd(s: Net, t: Net, u: Net, v: Net)
    requires t.nodes == s.nodes && SameCounters(t, u) && OneMoreEach(u, v)
    ensures OneMoreEach(s, v)
  {
  }

  lemma GreetingCountsNone(peer: Cabling, s: Net, p: Port)
    requires p in peer && IsPort(s, p) && Enabled(s, Deliver(GreetingPacket(peer, s, p)))
    ensures SameCounters(s, Apply(peer, s, Deliver(GreetingPacket(peer, s, p))))
  {
  }

  lemma NodeCountsOne(n: Node, i: nat, h: Hello)
    requires i < |n.intfs| && n.sequenceNumber < MAX_UINT32
    ensures ReceiveHello(n, i, h).0.sequenceNumber <= n.sequenceNumber + 1
  {
  }

  lemma DeliveryCountsOne(peer: Cabling, s: Net, pkt: Packet)
    requires Enabled(s, Deliver(pkt)) && pkt.msg.HelloMsg?
    ensures OneMoreEach(s, Apply(peer, s, Deliver(pkt)))
  {
    NodeCountsOne(s.nodes[pkt.dst.node], pkt.dst.intf, pkt.msg.hello);
  }
}
