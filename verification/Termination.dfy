/** Flooding stops. One measure, of LSPs still to be stored and sent and of packets in
    flight, bounds the LSP sends and receipts between local generations, and all sends and
    deliveries of every run. */
module Termination {
  import opened Bytes
  import opened Lsps
  import opened Interfaces
  import opened Nodes
  import opened Wire
  import opened Network
  import opened NodeSteps
  import opened Hellos
  import opened Safety
  import opened Convergence

  /** A send or a receipt of an LSP. */
  predicate IsFloodEvent(e: Event) {
    e.LspTimer? || (e.Deliver? && e.pkt.msg.LspMsg?)
  }

  // ----- The measure ------------------------------------------------------------------------

  /** The key and the counter of each router. */
  datatype Origin = Origin(key: nat, counter: nat)

  function Origins(nodes: seq<Node>): (os: seq<Origin>)
    ensures |os| == |nodes|
  {
    seq(|nodes|, a requires 0 <= a < |nodes| => Origin(OwnKey(nodes[a]), nodes[a].sequenceNumber))
  }

  function Stored(n: Node, k: nat): nat {
    if k in n.db then SequenceNumber(n.db[k]) else 0
  }

  /** On how many interfaces k has its SRM flag set. */
  function Flags(intfs: seq<Intf>, k: nat): nat {
    if intfs == [] then 0
    else
      var i := intfs[|intfs| - 1];
      Flags(intfs[..|intfs| - 1], k) + (if k in i.flood && i.flood[k] then 1 else 0)
  }

  /** Each sequence number n is behind may set every flag once more; each flag is one
      send, and that one receipt. */
  function KeyWork(n: Node, o: Origin): int {
    2 * (|n.intfs| * (o.counter - Stored(n, o.key))) + 2 * Flags(n.intfs, o.key)
  }

  function NodeWork(os: seq<Origin>, n: Node): int {
    if os == [] then 0 else NodeWork(os[..|os| - 1], n) + KeyWork(n, os[|os| - 1])
  }

  function TotalWork(os: seq<Origin>, nodes: seq<Node>): int {
    if nodes == [] then 0 else TotalWork(os, nodes[..|nodes| - 1]) + NodeWork(os, nodes[|nodes| - 1])
  }

  /** What a packet in flight weighs, by kind. */
  datatype Weights = Weights(greeting: nat, reply: nat, lsp: nat)

  function PacketWeight(w: Weights, pkt: Packet): nat {
    match pkt.msg
    case LspMsg(_) => w.lsp
    case HelloMsg(h) => if h.tlvs == [] then w.greeting else w.reply
  }

  ghost function Weigh(w: Weights, m: multiset<Packet>): nat
    decreases |m|
  {
    if m == multiset{} then 0
    else
      var pkt :| pkt in m;
      PacketWeight(w, pkt) + Weigh(w, m - multiset{pkt})
  }

  ghost function Measure(w: Weights, s: Net): int {
    TotalWork(Origins(s.nodes), s.nodes) + Weigh(w, s.flight)
  }

  /** What is left to do about LSPs: hellos in flight do not count. */
  const LSPS_ONLY := Weights(0, 0, 1)

  ghost function Work(s: Net): int {
    Measure(LSPS_ONLY, s)
  }

  // ----- Packets in flight --------------------------------------------------------------------------

  lemma {:induction false} WeighRemove(w: Weights, m: multiset<Packet>, x: Packet)
    requires x in m
    ensures Weigh(w, m) == PacketWeight(w, x) + Weigh(w, m - multiset{x})
    decreases |m|
  {
    var y: Packet :| y in m && Weigh(w, m) == PacketWeight(w, y) + Weigh(w, m - multiset{y});
    if y != x {
      var m', m'' := m - multiset{x}, m - multiset{y};
      assert x in m'' && y in m' && m' - multiset{y} == m'' - multiset{x};
      WeighRemove(w, m'', x);
      WeighRemove(w, m', y);
    }
  }

  lemma WeighAdd(w: Weights, m: multiset<Packet>, x: Packet)
    ensures Weigh(w, m + multiset{x}) == Weigh(w, m) + PacketWeight(w, x)
  {
    WeighRemove(w, m + multiset{x}, x);
    assert m + multiset{x} - multiset{x} == m;
  }

  lemma WeighSent(w: Weights, m: multiset<Packet>, peer: Cabling, p: Port, msg: Msg)
    ensures Weigh(w, m + Sent(peer, p, msg)) ==
            Weigh(w, m) + if p in peer then PacketWeight(w, Packet(peer[p], msg)) else 0
  {
    if p in peer {
      WeighAdd(w, m, Packet(peer[p], msg));
    } else {
      assert m + Sent(peer, p, msg) == m;
    }
  }

  // ----- Sums -----------------------------------------------------------------------------------

  lemma {:induction false} NodeWorkDrops(os: seq<Origin>, n: Node, n': Node, j: nat, delta: int)
    requires j < |os| && KeyWork(n', os[j]) + delta <= KeyWork(n, os[j]) && delta >= 0
    requires forall i :: 0 <= i < |os| && i != j ==> KeyWork(n', os[i]) <= KeyWork(n, os[i])
    ensures NodeWork(os, n') + delta <= NodeWork(os, n)
  {
    if j < |os| - 1 {
      NodeWorkDrops(os[..|os| - 1], n, n', j, delta);
    } else {
      NodeWorkNoMore(os[..|os| - 1], n, n');
    }
  }

  lemma {:induction false} NodeWorkNoMore(os: seq<Origin>, n: Node, n': Node)
    requires forall i :: 0 <= i < |os| ==> KeyWork(n', os[i]) <= KeyWork(n, os[i])
    ensures NodeWork(os, n') <= NodeWork(os, n)
  {
    if os != [] {
      NodeWorkNoMore(os[..|os| - 1], n, n');
    }
  }

  lemma {:induction false} TotalWorkUpdate(os: seq<Origin>, nodes: seq<Node>, a: nat, n: Node)
    requires a < |nodes|
    ensures TotalWork(os, nodes[a := n]) == TotalWork(os, nodes) - NodeWork(os, nodes[a]) + NodeWork(os, n)
  {
    var init := nodes[..|nodes| - 1];
    if a < |init| {
      TotalWorkUpdate(os, init, a, n);
      assert nodes[a := n][..|nodes| - 1] == init[a := n];
    } else {
      assert nodes[a := n][..|nodes| - 1] == init;
    }
  }

  lemma {:induction false} TotalWorkNonNegative(os: seq<Origin>, nodes: seq<Node>)
    requires forall a :: 0 <= a < |nodes| ==> NotAhead(os, nodes[a])
    ensures TotalWork(os, nodes) >= 0
  {
    if nodes != [] {
      TotalWorkNonNegative(os, nodes[..|nodes| - 1]);
      NodeWorkNonNegative(os, nodes[|nodes| - 1]);
    }
  }

  ghost predicate NotAhead(os: seq<Origin>, n: Node) {
    forall i :: 0 <= i < |os| ==> Stored(n, os[i].key) <= os[i].counter
  }

  lemma {:induction false} NodeWorkNonNegative(os: seq<Origin>, n: Node)
    requires NotAhead(os, n)
    ensures NodeWork(os, n) >= 0
  {
    if os != [] {
      NodeWorkNonNegative(os[..|os| - 1], n);
      ProductNonNegative(|n.intfs|, os[|os| - 1].counter - Stored(n, os[|os| - 1].key));
    }
  }

  lemma ProductNonNegative(a: int, b: int)
    requires a >= 0 && b >= 0
    ensures a * b >= 0
  {
  }

  // ----- Flags ---------------------------------------------------------------------------------------

  lemma {:induction false} FlagsSame(a: seq<Intf>, b: seq<Intf>, k: nat)
    requires |a| == |b| && forall i :: 0 <= i < |a| ==>
               ((k in a[i].flood && a[i].flood[k]) <==> (k in b[i].flood && b[i].flood[k]))
    ensures Flags(a, k) == Flags(b, k)
  {
    if a != [] {
      FlagsSame(a[..|a| - 1], b[..|b| - 1], k);
    }
  }

  lemma {:induction false} FlagsCleared(a: seq<Intf>, b: seq<Intf>, k: nat, i: nat)
    requires |a| == |b| && i < |a| && k in a[i].flood && a[i].flood[k] && k in b[i].flood && !b[i].flood[k]
    requires forall j :: 0 <= j < |a| && j != i ==> b[j] == a[j]
    ensures Flags(b, k) == Flags(a, k) - 1
  {
    var x, y := a[..|a| - 1], b[..|b| - 1];
    if i < |x| {
      FlagsCleared(x, y, k, i);
    } else {
      FlagsSame(x, y, k);
    }
  }

  lemma {:induction false} FlagsAtMost(a: seq<Intf>, k: nat)
    ensures Flags(a, k) <= |a|
  {
    if a != [] {
      FlagsAtMost(a[..|a| - 1], k);
    }
  }

  lemma {:induction false} FlagsNotAll(a: seq<Intf>, k: nat, i: nat)
    requires i < |a| && !(k in a[i].flood && a[i].flood[k])
    ensures Flags(a, k) < |a|
  {
    var init := a[..|a| - 1];
    if i < |init| {
      FlagsNotAll(init, k, i);
    } else {
      FlagsAtMost(init, k);
    }
  }

  // ----- One event -----------------------------------------------------------------------------------

  lemma {:induction false} OneBehindLess(c: nat, n: int, x: int, y: int)
    requires x < y
    ensures c * (n - y) <= c * (n - x) - c
  {
    if c > 0 {
      OneBehindLess(c - 1, n, x, y);
      MulSplit(c, n - y);
      MulSplit(c, n - x);
    }
  }

  lemma MulSplit(c: int, z: int)
    ensures c * z == (c - 1) * z + z
  {
  }

  lemma SendWork(n: Node, i: nat, k: nat, o: Origin)
    requires MaySend(n, i, k)
    ensures o.key == k ==> KeyWork(ClearSrm(n, i, k), o) == KeyWork(n, o) - 2
    ensures o.key != k ==> KeyWork(ClearSrm(n, i, k), o) == KeyWork(n, o)
  {
    var n' := ClearSrm(n, i, k);
    if o.key == k {
      FlagsCleared(n.intfs, n'.intfs, k, i);
    } else {
      FlagsSame(n.intfs, n'.intfs, o.key);
    }
  }

  lemma ReceiveWork(n: Node, i: nat, l: Lsp, o: Origin)
    requires i < |n.intfs| && IsNewer(n.db, l) && SequenceNumber(l) >= 1
    ensures o.key == l.key ==> KeyWork(ReceiveLsp(n, i, l), o) + 2 <= KeyWork(n, o)
    ensures o.key != l.key ==> KeyWork(ReceiveLsp(n, i, l), o) == KeyWork(n, o)
  {
    var n' := ReceiveLsp(n, i, l);
    if o.key == l.key {
      FlagsNotAll(n'.intfs, l.key, i);
      OneBehindLess(|n.intfs|, o.counter, Stored(n, l.key), Stored(n', l.key));
    } else {
      FlagsSame(n.intfs, n'.intfs, o.key);
    }
  }

  /** Some router owns the key of every logged LSP. */
  lemma OriginOf(s: Net, l: Lsp) returns (j: nat)
    requires LogOk(s) && l in s.log
    ensures j < |s.nodes| && Origins(s.nodes)[j].key == l.key
  {
    assert Owned(s, l);
    j :| 0 <= j < |s.nodes| && OwnKey(s.nodes[j]) == l.key
         && 1 <= SequenceNumber(l) <= s.nodes[j].sequenceNumber;
  }

  lemma NodeSendDrops(os: seq<Origin>, n: Node, i: nat, k: nat, j: nat)
    requires MaySend(n, i, k) && j < |os| && os[j].key == k
    ensures NodeWork(os, ClearSrm(n, i, k)) + 2 <= NodeWork(os, n)
  {
    var n' := ClearSrm(n, i, k);
    forall x | 0 <= x < |os|
      ensures os[x].key == k ==> KeyWork(n', os[x]) == KeyWork(n, os[x]) - 2
      ensures os[x].key != k ==> KeyWork(n', os[x]) == KeyWork(n, os[x])
    {
      SendWork(n, i, k, os[x]);
    }
    NodeWorkDrops(os, n, n', j, 2);
  }

  lemma SendLess(s: Net, p: Port, k: nat)
    requires IsPort(s, p) && MaySend(s.nodes[p.node], p.intf, k) && LogOk(s) && NodeOk(s, s.nodes[p.node])
    ensures var nodes := s.nodes[p.node := ClearSrm(s.nodes[p.node], p.intf, k)];
      TotalWork(Origins(nodes), nodes) + 2 <= TotalWork(Origins(s.nodes), s.nodes)
  {
    var os, n := Origins(s.nodes), s.nodes[p.node];
    var n' := ClearSrm(n, p.intf, k);
    assert Origins(s.nodes[p.node := n']) == os;
    var j := OriginOf(s, n.db[k]);
    NodeSendDrops(os, n, p.intf, k, j);
    TotalWorkUpdate(os, s.nodes, p.node, n');
  }

  lemma SendDecreases(peer: Cabling, s: Net, s': Net, p: Port, k: nat, w: Weights)
    requires IsLspSend(peer, s, s', p, k) && LogOk(s) && NodeOk(s, s.nodes[p.node]) && w.lsp == 1
    ensures Measure(w, s') < Measure(w, s)
  {
    SendLess(s, p, k);
    WeighAdd(w, s.flight, Packet(peer[p], LspMsg(s.nodes[p.node].db[k])));
  }

  lemma ReceiveNoMore(s: Net, s': Net, d: Port, l: Lsp)
    requires IsLspDelivery(s, s', d, l) && LogOk(s) && l in s.log
    ensures TotalWork(Origins(s'.nodes), s'.nodes) <= TotalWork(Origins(s.nodes), s.nodes)
  {
    var os, n := Origins(s.nodes), s.nodes[d.node];
    var n' := ReceiveLsp(n, d.intf, l);
    assert Origins(s'.nodes) == os;
    if IsNewer(n.db, l) {
      assert Owned(s, l);
      forall i | 0 <= i < |os| ensures KeyWork(n', os[i]) <= KeyWork(n, os[i]) {
        ReceiveWork(n, d.intf, l, os[i]);
      }
      NodeWorkNoMore(os, n, n');
      TotalWorkUpdate(os, s.nodes, d.node, n');
    } else {
      assert s'.nodes == s.nodes;
    }
  }

  lemma SendEventDecreases(peer: Cabling, s: Net, p: Port, k: nat, w: Weights)
    requires LogOk(s) && NodesOk(s) && AdjsOk(peer, s) && Enabled(s, LspTimer(p, k)) && w.lsp == 1
    ensures Measure(w, Apply(peer, s, LspTimer(p, k))) < Measure(w, s)
  {
    assert AdjOk(peer, s, p);
    assert NodeOk(s, s.nodes[p.node]);
    SendDecreases(peer, s, Apply(peer, s, LspTimer(p, k)), p, k, w);
  }

  lemma DeliverEventDecreases(peer: Cabling, s: Net, d: Port, l: Lsp, w: Weights)
    requires LogOk(s) && PacketsOk(peer, s) && Enabled(s, Deliver(Packet(d, LspMsg(l)))) && w.lsp == 1
    ensures Measure(w, Apply(peer, s, Deliver(Packet(d, LspMsg(l))))) < Measure(w, s)
  {
    assert PacketOk(peer, s, Packet(d, LspMsg(l)));
    ReceiveNoMore(s, Apply(peer, s, Deliver(Packet(d, LspMsg(l)))), d, l);
    WeighRemove(w, s.flight, Packet(d, LspMsg(l)));
  }

  // ----- Hellos --------------------------------------------------------------------------------------

  lemma {:induction false} NodeWorkSame(os: seq<Origin>, n: Node, n': Node)
    requires n'.db == n.db && |n'.intfs| == |n.intfs|
    requires forall i :: 0 <= i < |n.intfs| ==> n'.intfs[i].flood == n.intfs[i].flood
    ensures NodeWork(os, n') == NodeWork(os, n)
  {
    if os != [] {
      NodeWorkSame(os[..|os| - 1], n, n');
      FlagsSame(n.intfs, n'.intfs, os[|os| - 1].key);
    }
  }

  lemma GreetedMeasure(peer: Cabling, s: Net, s': Net, d: Port, h: Hello, w: Weights)
    requires IsGreeting(peer, s, s', d, h) && h.tlvs == [] && Packet(d, HelloMsg(h)) in s.flight
    ensures Measure(w, s') == Measure(w, s) - w.greeting + w.reply
  {
    var n := s.nodes[d.node];
    var n' := SetAdj(n, d.intf, Initialized(n.intfs[d.intf].adj));
    assert Origins(s'.nodes) == Origins(s.nodes);
    NodeWorkSame(Origins(s.nodes), n, n');
    TotalWorkUpdate(Origins(s.nodes), s.nodes, d.node, n');
    WeighRemove(w, s.flight, Packet(d, HelloMsg(h)));
    WeighSent(w, s.flight - multiset{Packet(d, HelloMsg(h))}, peer, d, HelloMsg(Reply(n, d.intf, h.sourceMac)));
  }

  /** The interfaces of all routers. */
  function PortCount(nodes: seq<Node>): nat {
    if nodes == [] then 0 else PortCount(nodes[..|nodes| - 1]) + |nodes[|nodes| - 1].intfs|
  }

  /** os' is os with one more generation by origin a. */
  ghost predicate OneMore(os: seq<Origin>, a: nat, os': seq<Origin>) {
    && a < |os| == |os'| && os'[a] == Origin(os[a].key, os[a].counter + 1)
    && forall i :: 0 <= i < |os| && i != a ==> os'[i] == os[i]
  }

  lemma {:induction false} NodeWorkEqual(os: seq<Origin>, os': seq<Origin>, n: Node)
    requires |os| == |os'| && forall i :: 0 <= i < |os| ==> os'[i] == os[i]
    ensures NodeWork(os', n) == NodeWork(os, n)
  {
    assert os == os';
  }

  /** One more generation by a router puts every router one number further behind, */
  lemma {:induction false} NodeWorkBehind(os: seq<Origin>, a: nat, os': seq<Origin>, n: Node)
    requires OneMore(os, a, os')
    ensures NodeWork(os', n) == NodeWork(os, n) + 2 * |n.intfs|
  {
    var last := |os| - 1;
    if a < last {
      NodeWorkBehind(os[..last], a, os'[..last], n);
    } else {
      NodeWorkEqual(os[..last], os'[..last], n);
      BehindByOne(|n.intfs|, os[a].counter - Stored(n, os[a].key));
    }
  }

  lemma BehindByOne(c: nat, x: int)
    ensures c * (x + 1) == c * x + c
  {
  }

  lemma {:induction false} TotalWorkBehind(os: seq<Origin>, a: nat, os': seq<Origin>, nodes: seq<Node>)
    requires OneMore(os, a, os')
    ensures TotalWork(os', nodes) == TotalWork(os, nodes) + 2 * PortCount(nodes)
  {
    if nodes != [] {
      TotalWorkBehind(os, a, os', nodes[..|nodes| - 1]);
      NodeWorkBehind(os, a, os', nodes[|nodes| - 1]);
    }
  }

  /** and costs the router itself no more than that. */
  lemma GenerateWork(n: Node, m: Node, o: Origin)
    requires m.sequenceNumber < MAX_UINT32 && m.sid == n.sid && m.db == n.db && |m.intfs| == |n.intfs|
    requires forall i :: 0 <= i < |n.intfs| ==> m.intfs[i].flood == n.intfs[i].flood
    requires m.sequenceNumber == n.sequenceNumber == Stored(n, OwnKey(n))
    requires o.key == OwnKey(n) ==> o.counter == n.sequenceNumber + 1
    ensures KeyWork(GenerateLocal(m), o) <= KeyWork(n, o)
  {
    var n' := GenerateLocal(m);
    NewLspIs(m);
    if o.key == OwnKey(n) {
      FlagsAtMost(n'.intfs, o.key);
      assert Stored(n', o.key) == o.counter;
      BehindByOne(|n.intfs|, 0);
    } else {
      FlagsSame(n.intfs, n'.intfs, o.key);
    }
  }

  lemma ConfirmedOrigins(peer: Cabling, s: Net, s': Net, d: Port, h: Hello)
    requires IsConfirm(peer, s, s', d, h)
    ensures OneMore(Origins(s.nodes), d.node, Origins(s'.nodes))
  {
    NewLspIs(Confirmed(s, d, h));
  }

  lemma ConfirmedKey(peer: Cabling, s: Net, d: Port, h: Hello, i: nat, o: Origin)
    requires IsPort(s, d) && s.nodes[d.node].sequenceNumber < MAX_UINT32 && NodeOk(s, s.nodes[d.node]) && i < |s.nodes|
    requires forall i, j :: 0 <= i < j < |s.nodes| ==> s.nodes[i].sid != s.nodes[j].sid
    requires o.key == OwnKey(s.nodes[i]) && (i == d.node ==> o.counter == s.nodes[d.node].sequenceNumber + 1)
    ensures KeyWork(GenerateLocal(Confirmed(s, d, h)), o) <= KeyWork(s.nodes[d.node], o)
  {
    var n := s.nodes[d.node];
    if o.key == OwnKey(n) {
      OwnKeyInjective(s.nodes[i], n);
    }
    GenerateWork(n, Confirmed(s, d, h), o);
  }

  lemma ConfirmedWork(peer: Cabling, s: Net, s': Net, d: Port, h: Hello)
    requires IsConfirm(peer, s, s', d, h) && NodeOk(s, s.nodes[d.node])
    requires forall i, j :: 0 <= i < j < |s.nodes| ==> s.nodes[i].sid != s.nodes[j].sid
    ensures TotalWork(Origins(s'.nodes), s'.nodes) <= TotalWork(Origins(s.nodes), s.nodes) + 2 * PortCount(s.nodes)
  {
    var os, os', n' := Origins(s.nodes), Origins(s'.nodes), GenerateLocal(Confirmed(s, d, h));
    ConfirmedOrigins(peer, s, s', d, h);
    forall i | 0 <= i < |os'| ensures KeyWork(n', os'[i]) <= KeyWork(s.nodes[d.node], os'[i]) {
      ConfirmedKey(peer, s, d, h, i, os'[i]);
    }
    NodeWorkNoMore(os', s.nodes[d.node], n');
    WorkAfterOneMore(os, d.node, os', s.nodes, n');
  }

  lemma WorkAfterOneMore(os: seq<Origin>, a: nat, os': seq<Origin>, nodes: seq<Node>, n: Node)
    requires OneMore(os, a, os') && a < |nodes| && NodeWork(os', n) <= NodeWork(os', nodes[a])
    ensures TotalWork(os', nodes[a := n]) <= TotalWork(os, nodes) + 2 * PortCount(nodes)
  {
    TotalWorkBehind(os, a, os', nodes);
    TotalWorkUpdate(os', nodes, a, n);
  }

  lemma ConfirmedMeasure(peer: Cabling, s: Net, s': Net, d: Port, h: Hello, w: Weights)
    requires IsConfirm(peer, s, s', d, h) && NodeOk(s, s.nodes[d.node])
    requires forall i, j :: 0 <= i < j < |s.nodes| ==> s.nodes[i].sid != s.nodes[j].sid
    requires h.tlvs != [] && Packet(d, HelloMsg(h)) in s.flight
    ensures Measure(w, s') <= Measure(w, s) - w.reply + 2 * PortCount(s.nodes)
  {
    ConfirmedWork(peer, s, s', d, h);
    WeighRemove(w, s.flight, Packet(d, HelloMsg(h)));
  }

  // ----- Every event ------------------------------------------------------------------------------

  /** The event is the receipt of a confirming hello, on which a local LSP is generated. */
  predicate Generates(s: Net, e: Event) {
    && e.Deliver? && e.pkt.msg.HelloMsg? && IsPort(s, e.pkt.dst)
    && Classify(s.nodes[e.pkt.dst.node], e.pkt.dst.intf, e.pkt.msg.hello) == Confirms
  }

  /** A hello timer that puts a greeting on a link. */
  predicate Greets(peer: Cabling, e: Event) {
    e.HelloTimer? && e.port in peer
  }

  /** By how much an event may raise the measure. */
  function Gain(peer: Cabling, s: Net, e: Event, w: Weights): int {
    match e
    case HelloTimer(p) => if p in peer then w.greeting else 0
    case LspTimer(p, k) => -1
    case Deliver(pkt) =>
      match pkt.msg
      case LspMsg(_) => -1
      case HelloMsg(h) => HelloGain(Generates(s, e), h, PortCount(s.nodes), w)
  }

  function HelloGain(generates: bool, h: Hello, ports: nat, w: Weights): int {
    if generates then 2 * ports - w.reply
    else if h.tlvs == [] then w.reply - w.greeting
    else 0 - w.reply as int
  }

  lemma DroppedMeasure(s: Net, pkt: Packet, w: Weights)
    requires pkt in s.flight
    ensures Measure(w, s.(flight := s.flight - multiset{pkt})) == Measure(w, s) - PacketWeight(w, pkt)
  {
    WeighRemove(w, s.flight, pkt);
  }

  /** What the receipt of a hello does, by its kind. */
  ghost predicate Outcome(peer: Cabling, s: Net, s': Net, d: Port, h: Hello, kind: HelloKind) {
    match kind
    case OwnHello => s' == s.(flight := s.flight - multiset{Packet(d, HelloMsg(h))})
    case Other => s' == s.(flight := s.flight - multiset{Packet(d, HelloMsg(h))})
    case Greeting => IsGreeting(peer, s, s', d, h) && h.tlvs == []
    case Confirms => IsConfirm(peer, s, s', d, h) && h.tlvs != []
  }

  lemma OutcomeMeasure(peer: Cabling, s: Net, s': Net, d: Port, h: Hello, kind: HelloKind, w: Weights)
    requires Cabled(peer, s) && NodesOk(s) && IsPort(s, d) && Packet(d, HelloMsg(h)) in s.flight
    requires Outcome(peer, s, s', d, h, kind)
    ensures Measure(w, s') <= Measure(w, s) + HelloGain(kind == Confirms, h, PortCount(s.nodes), w)
  {
    match kind {
      case OwnHello => DroppedMeasure(s, Packet(d, HelloMsg(h)), w);
      case Other => DroppedMeasure(s, Packet(d, HelloMsg(h)), w);
      case Greeting => GreetedMeasure(peer, s, s', d, h, w);
      case Confirms =>
        assert NodeOk(s, s.nodes[d.node]);
        ConfirmedMeasure(peer, s, s', d, h, w);
    }
  }

  lemma HelloOutcome(peer: Cabling, s: Net, d: Port, h: Hello)
    requires IsPort(s, d) && d in peer && s.nodes[d.node].sequenceNumber < MAX_UINT32
    ensures Outcome(peer, s, DeliverHello(peer, s, Packet(d, HelloMsg(h)), h), d, h, Classify(s.nodes[d.node], d.intf, h))
  {
    DeliverHelloIs(peer, s, d, h);
  }

  lemma DeliveredHelloMeasure(peer: Cabling, s: Net, d: Port, h: Hello, w: Weights)
    requires Cabled(peer, s) && NodesOk(s) && IsPort(s, d) && d in peer && Packet(d, HelloMsg(h)) in s.flight
    requires s.nodes[d.node].sequenceNumber < MAX_UINT32
    ensures var kind := Classify(s.nodes[d.node], d.intf, h);
      Measure(w, DeliverHello(peer, s, Packet(d, HelloMsg(h)), h)) <=
      Measure(w, s) + HelloGain(kind == Confirms, h, PortCount(s.nodes), w)
  {
    HelloOutcome(peer, s, d, h);
    OutcomeMeasure(peer, s, DeliverHello(peer, s, Packet(d, HelloMsg(h)), h), d, h, Classify(s.nodes[d.node], d.intf, h), w);
  }

  lemma StepMeasure(peer: Cabling, s: Net, e: Event, w: Weights)
    requires Inv(peer, s) && Enabled(s, e) && w.lsp == 1
    ensures Measure(w, Apply(peer, s, e)) <= Measure(w, s) + Gain(peer, s, e, w)
  {
    match e {
      case HelloTimer(p) => WeighSent(w, s.flight, peer, p, HelloMsg(PlainHello(s.nodes[p.node], p.intf)));
      case LspTimer(p, k) => SendEventDecreases(peer, s, p, k, w);
      case Deliver(pkt) =>
        match pkt.msg {
          case LspMsg(l) => DeliverEventDecreases(peer, s, pkt.dst, l, w);
          case HelloMsg(h) =>
            assert PacketOk(peer, s, pkt);
            DeliveredHelloMeasure(peer, s, pkt.dst, h, w);
        }
    }
  }

  lemma MeasureNonNegative(peer: Cabling, s: Net, w: Weights)
    requires Inv(peer, s)
    ensures Measure(w, s) >= 0
  {
    var os := Origins(s.nodes);
    forall a | 0 <= a < |s.nodes| ensures NotAhead(os, s.nodes[a]) {
      var n := s.nodes[a];
      assert NodeOk(s, n);
      forall i | 0 <= i < |os| && os[i].key in n.db ensures Stored(n, os[i].key) <= os[i].counter {
        OlderThanNew(s, i, n.db[os[i].key]);
      }
    }
    TotalWorkNonNegative(os, s.nodes);
  }

  // ----- Runs between generations ------------------------------------------------------------------

  /** No event of the run makes a router generate an LSP. */
  ghost predicate NoGeneration(peer: Cabling, s: Net, es: seq<Event>)
    requires IsRun(peer, s, es)
    decreases |es|
  {
    es == [] || (!Generates(s, es[0]) && NoGeneration(peer, Apply(peer, s, es[0]), es[1..]))
  }

  /** How many of the events are sends and receipts of LSPs. */
  function Floods(es: seq<Event>): nat {
    if es == [] then 0 else (if IsFloodEvent(es[0]) then 1 else 0) + Floods(es[1..])
  }

  lemma QuietGain(peer: Cabling, s: Net, e: Event)
    requires !Generates(s, e)
    ensures Gain(peer, s, e, LSPS_ONLY) == if IsFloodEvent(e) then -1 else 0
  {
  }

  lemma WorkStep(peer: Cabling, s: Net, e: Event)
    requires Inv(peer, s) && Enabled(s, e) && !Generates(s, e)
    ensures Work(Apply(peer, s, e)) <= Work(s) && (IsFloodEvent(e) ==> Work(Apply(peer, s, e)) < Work(s))
  {
    StepMeasure(peer, s, e, LSPS_ONLY);
    QuietGain(peer, s, e);
  }

  /** From any reachable state, at most Work(s) sends and receipts of LSPs happen before
      another local LSP is generated, whatever hellos go on in between. */
  lemma {:induction false} FloodingTerminates(peer: Cabling, s: Net, es: seq<Event>)
    requires Inv(peer, s) && IsRun(peer, s, es) && NoGeneration(peer, s, es)
    ensures Floods(es) <= Work(s)
    decreases |es|
  {
    if es == [] {
      MeasureNonNegative(peer, s, LSPS_ONLY);
    } else {
      StepKeeps(peer, s, es[0]);
      WorkStep(peer, s, es[0]);
      FloodingTerminates(peer, Apply(peer, s, es[0]), es[1..]);
    }
  }

  predicate OnlyFlooding(es: seq<Event>) {
    es == [] || (IsFloodEvent(es[0]) && OnlyFlooding(es[1..]))
  }

  /** Flooding has nothing left to do exactly in the quiescent states, where the databases
      agree. */
  lemma StuckIffQuiescent(peer: Cabling, s: Net)
    requires Inv(peer, s)
    ensures Quiescent(s) <==> Stuck(s)
  {
    if Stuck(s) {
      StuckIsQuiescent(peer, s);
    }
    if Quiescent(s) {
      QuiescentIsStuck(s);
    }
  }

  ghost predicate Stuck(s: Net) {
    forall e :: IsFloodEvent(e) ==> !Enabled(s, e)
  }

  lemma QuiescentIsStuck(s: Net)
    requires Quiescent(s)
    ensures Stuck(s)
  {
    forall e | IsFloodEvent(e) ensures !Enabled(s, e) {
      match e {
        case Deliver(pkt) =>
        case LspTimer(p, k) =>
          assert Enabled(s, e) ==> IsPort(s, p) && k in IntfAt(s, p).flood;
      }
    }
  }

  lemma StuckIsQuiescent(peer: Cabling, s: Net)
    requires PacketsOk(peer, s) && NodesOk(s) && Stuck(s)
    ensures Quiescent(s)
  {
    forall pkt | pkt in s.flight ensures !pkt.msg.LspMsg? {
      assert PacketOk(peer, s, pkt);
      assert IsFloodEvent(Deliver(pkt)) ==> !Enabled(s, Deliver(pkt));
    }
    forall p, k | IsPort(s, p) && IntfAt(s, p).adj.state == UP && k in IntfAt(s, p).flood
      ensures !IntfAt(s, p).flood[k]
    {
      assert NodeOk(s, s.nodes[p.node]);
      assert IsFloodEvent(LspTimer(p, k));
    }
  }

  /** From every reachable state flooding can be finished, and then the databases agree. */
  lemma {:induction false} FloodingFinishes(peer: Cabling, s: Net) returns (es: seq<Event>)
    requires Inv(peer, s)
    ensures IsRun(peer, s, es) && OnlyFlooding(es)
    ensures Inv(peer, After(peer, s, es)) && Quiescent(After(peer, s, es))
    decreases Work(s)
  {
    MeasureNonNegative(peer, s, LSPS_ONLY);
    if Stuck(s) {
      es := [];
      StuckIsQuiescent(peer, s);
    } else {
      var e :| IsFloodEvent(e) && Enabled(s, e);
      StepKeeps(peer, s, e);
      WorkStep(peer, s, e);
      var rest := FloodingFinishes(peer, Apply(peer, s, e));
      es := [e] + rest;
      LeadsFirst(peer, s, e, rest, After(peer, Apply(peer, s, e), rest));
      assert es[1..] == rest;
    }
  }
}
