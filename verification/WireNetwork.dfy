/** The network with frames on its links: routers put bytes on the wire and decode what
    arrives. Its runs are those of module Network, message for frame, so the theorems
    about every run hold over the wire. */
module WireNetwork {
  import opened Bytes
  import opened Wrappers
  import opened Lsps
  import opened Hellos
  import opened Interfaces
  import opened Spf
  import opened Nodes
  import opened Wire
  import opened Network
  import opened NodeSteps
  import opened Adverts
  import opened Safety
  import opened Convergence
  import opened Forwarding
  import opened Bootstrap
  import opened Routers
  import opened Sets

  datatype Frame = Frame(dst: Port, bytes: seq<byte>)

  datatype WireNet = WireNet(nodes: seq<Node>, frames: multiset<Frame>)

  datatype WireEvent = HelloTick(port: Port) | LspTick(port: Port, key: nat) | Arrival(frame: Frame)

  predicate HasPort(w: WireNet, p: Port) {
    p.node < |w.nodes| && p.intf < |w.nodes[p.node].intfs|
  }

  // ----- Steps ---------------------------------------------------------------------------

  /** The frame that goes out of port p. */
  function Put(peer: Cabling, w: WireNet, p: Port, m: Msg): multiset<Frame>
    requires HasPort(w, p)
  {
    if p in peer then multiset{Frame(peer[p], FrameOf(w.nodes[p.node].intfs[p.intf].mac, m))} else multiset{}
  }

  predicate IsHello(raw: seq<byte>)
    requires Decodable(raw)
  {
    ReceiveFrame(raw).Some? && ReceiveFrame(raw).value.HelloMsg?
  }

  predicate IsLsp(raw: seq<byte>) {
    Decodable(raw) && ReceiveFrame(raw).Some? && ReceiveFrame(raw).value.LspMsg?
  }

  predicate WireEnabled(w: WireNet, x: WireEvent) {
    match x
    case HelloTick(p) => HasPort(w, p) && w.nodes[p.node].intfs[p.intf].adj.state != UP
    case LspTick(p, k) => HasPort(w, p) && MaySend(w.nodes[p.node], p.intf, k)
    case Arrival(f) =>
      && f in w.frames && HasPort(w, f.dst) && Decodable(f.bytes)
      && (IsHello(f.bytes) ==> w.nodes[f.dst.node].sequenceNumber < MAX_UINT32)
  }

  function WireApply(peer: Cabling, w: WireNet, x: WireEvent): WireNet
    requires WireEnabled(w, x)
  {
    match x
    case HelloTick(p) =>
      w.(frames := w.frames + Put(peer, w, p, HelloMsg(PlainHello(w.nodes[p.node], p.intf))))
    case LspTick(p, k) =>
      var n := w.nodes[p.node];
      WireNet(w.nodes[p.node := ClearSrm(n, p.intf, k)], w.frames + Put(peer, w, p, LspMsg(n.db[k])))
    case Arrival(f) =>
      var (n', reply) := Arrive(w.nodes[f.dst.node], f.dst.intf, f.bytes);
      WireNet(w.nodes[f.dst.node := n'],
              w.frames - multiset{f} +
              if reply.Some? then Put(peer, w, f.dst, HelloMsg(reply.value)) else multiset{})
  }

  predicate WireRun(peer: Cabling, w: WireNet, xs: seq<WireEvent>)
    decreases |xs|
  {
    xs == [] || (WireEnabled(w, xs[0]) && WireRun(peer, WireApply(peer, w, xs[0]), xs[1..]))
  }

  function WireAfter(peer: Cabling, w: WireNet, xs: seq<WireEvent>): WireNet
    requires WireRun(peer, w, xs)
    decreases |xs|
  {
    if xs == [] then w else WireAfter(peer, WireApply(peer, w, xs[0]), xs[1..])
  }

  /** The run xs leads from w to v. */
  ghost predicate WireLeads(peer: Cabling, w: WireNet, xs: seq<WireEvent>, v: WireNet) {
    WireRun(peer, w, xs) && WireAfter(peer, w, xs) == v
  }

  lemma WireLeadsFirst(peer: Cabling, w: WireNet, x: WireEvent, rest: seq<WireEvent>, v: WireNet)
    requires WireEnabled(w, x)
    ensures WireLeads(peer, w, [x] + rest, v) <==> WireLeads(peer, WireApply(peer, w, x), rest, v)
  {
    assert ([x] + rest)[1..] == rest;
  }

  // ----- Frames and messages ------------------------------------------------------------------

  /** The port a frame for d came out of. */
  function Sender(peer: Cabling, d: Port): Port {
    if d in peer then peer[d] else d
  }

  function MacAt(macs: map<Port, Bytes6>, p: Port): Bytes6 {
    if p in macs then macs[p] else [0, 0, 0, 0, 0, 0]
  }

  ghost predicate Fine(peer: Cabling, macs: map<Port, Bytes6>, pkt: Packet) {
    Sendable(MacAt(macs, Sender(peer, pkt.dst)), pkt.msg)
  }

  function OnWire(peer: Cabling, macs: map<Port, Bytes6>, pkt: Packet): Frame {
    Frame(pkt.dst, FrameOf(MacAt(macs, Sender(peer, pkt.dst)), pkt.msg))
  }

  lemma OnWireInjective(peer: Cabling, macs: map<Port, Bytes6>, p: Packet, q: Packet)
    requires Fine(peer, macs, p) && Fine(peer, macs, q) && OnWire(peer, macs, p) == OnWire(peer, macs, q)
    ensures p == q
  {
    FramesDiffer(MacAt(macs, Sender(peer, p.dst)), p.msg, q.msg);
  }

  lemma OnWireDecodes(peer: Cabling, macs: map<Port, Bytes6>, pkt: Packet)
    requires Fine(peer, macs, pkt)
    ensures var raw := OnWire(peer, macs, pkt).bytes; Decodable(raw) && ReceiveFrame(raw) == Some(pkt.msg)
  {
    WireRoundTrip(MacAt(macs, Sender(peer, pkt.dst)), pkt.msg);
  }

  /** As many frames of each kind as messages, and no others. */
  ghost predicate IsImage(peer: Cabling, macs: map<Port, Bytes6>, a: multiset<Packet>, b: multiset<Frame>) {
    && (forall pkt :: pkt in a ==> Fine(peer, macs, pkt) && b[OnWire(peer, macs, pkt)] == a[pkt])
    && (forall f :: f in b ==> exists pkt :: pkt in a && OnWire(peer, macs, pkt) == f)
  }

  /** The frame of a message occurs as often as the message, also when that is never. */
  lemma ImageCount(peer: Cabling, macs: map<Port, Bytes6>, a: multiset<Packet>, b: multiset<Frame>, pkt: Packet)
    requires IsImage(peer, macs, a, b) && Fine(peer, macs, pkt)
    ensures b[OnWire(peer, macs, pkt)] == a[pkt]
  {
    if pkt !in a && OnWire(peer, macs, pkt) in b {
      var q :| q in a && OnWire(peer, macs, q) == OnWire(peer, macs, pkt);
      OnWireInjective(peer, macs, q, pkt);
    }
  }

  lemma ImageAdd(peer: Cabling, macs: map<Port, Bytes6>, a: multiset<Packet>, b: multiset<Frame>, pkt: Packet)
    requires IsImage(peer, macs, a, b) && Fine(peer, macs, pkt)
    ensures IsImage(peer, macs, a + multiset{pkt}, b + multiset{OnWire(peer, macs, pkt)})
  {
    var a', b' := a + multiset{pkt}, b + multiset{OnWire(peer, macs, pkt)};
    forall q | q in a' ensures Fine(peer, macs, q) && b'[OnWire(peer, macs, q)] == a'[q] {
      ImageCount(peer, macs, a, b, q);
      if OnWire(peer, macs, q) == OnWire(peer, macs, pkt) {
        OnWireInjective(peer, macs, q, pkt);
      }
    }
    forall f | f in b' ensures exists q :: q in a' && OnWire(peer, macs, q) == f {
      if f == OnWire(peer, macs, pkt) {
        assert pkt in a';
      } else {
        var q :| q in a && OnWire(peer, macs, q) == f;
        assert q in a';
      }
    }
  }

  lemma ImageRemove(peer: Cabling, macs: map<Port, Bytes6>, a: multiset<Packet>, b: multiset<Frame>, pkt: Packet)
    requires IsImage(peer, macs, a, b) && pkt in a
    ensures IsImage(peer, macs, a - multiset{pkt}, b - multiset{OnWire(peer, macs, pkt)})
  {
    var a', b' := a - multiset{pkt}, b - multiset{OnWire(peer, macs, pkt)};
    forall q | q in a' ensures Fine(peer, macs, q) && b'[OnWire(peer, macs, q)] == a'[q] {
      assert q in a;
      if OnWire(peer, macs, q) == OnWire(peer, macs, pkt) {
        OnWireInjective(peer, macs, q, pkt);
      }
    }
    forall f | f in b' ensures exists q :: q in a' && OnWire(peer, macs, q) == f {
      assert f in b;
      var q :| q in a && OnWire(peer, macs, q) == f;
      assert b[f] == a[q];
      assert q in a';
    }
  }

  // ----- The two networks in step ----------------------------------------------------------------

  ghost predicate MacsAre(peer: Cabling, macs: map<Port, Bytes6>, s: Net) {
    forall p :: p in peer ==> IsPort(s, p) && MacAt(macs, p) == IntfAt(s, p).mac
  }

  /** w is s with its messages turned into frames. */
  ghost predicate Carries(peer: Cabling, macs: map<Port, Bytes6>, s: Net, w: WireNet) {
    w.nodes == s.nodes && MacsAre(peer, macs, s) && IsImage(peer, macs, s.flight, w.frames)
  }

  lemma MacsKept(peer: Cabling, macs: map<Port, Bytes6>, s: Net, s': Net)
    requires MacsAre(peer, macs, s) && Evolves(s, s')
    ensures MacsAre(peer, macs, s')
  {
    forall p | p in peer ensures IsPort(s', p) && MacAt(macs, p) == IntfAt(s', p).mac {
      assert NodeEvolves(s.nodes[p.node], s'.nodes[p.node]);
    }
  }

  /** Every message a router may send survives the wire. */
  lemma PacketIsFine(peer: Cabling, macs: map<Port, Bytes6>, s: Net, pkt: Packet)
    requires Cabled(peer, s) && PacketOk(peer, s, pkt) && LogOk(s) && MacsAre(peer, macs, s)
    ensures Fine(peer, macs, pkt)
  {
    var sender := peer[pkt.dst];
    assert MacAt(macs, Sender(peer, pkt.dst)) == IntfAt(s, sender).mac;
    MessageIsSendable(peer, s, pkt);
  }

  lemma MessageIsSendable(peer: Cabling, s: Net, pkt: Packet)
    requires PacketOk(peer, s, pkt) && LogOk(s)
    ensures Sendable(IntfAt(s, peer[pkt.dst]).mac, pkt.msg)
  {
    if pkt.msg.LspMsg? {
      assert Owned(s, pkt.msg.lsp);
    }
  }

  /** What goes out of a port is the same message on one side and its frame on the other. */
  lemma SentImage(peer: Cabling, macs: map<Port, Bytes6>, s: Net, s': Net, w: WireNet, p: Port, m: Msg,
                  a: multiset<Packet>, b: multiset<Frame>)
    requires IsImage(peer, macs, a, b) && Cabled(peer, s) && MacsAre(peer, macs, s) && w.nodes == s.nodes && IsPort(s, p)
    requires Cabled(peer, s') && LogOk(s') && PacketsOk(peer, s') && MacsAre(peer, macs, s')
    requires s'.flight == a + Sent(peer, p, m)
    ensures IsImage(peer, macs, s'.flight, b + Put(peer, w, p, m))
  {
    if p in peer {
      var pkt := Packet(peer[p], m);
      assert pkt in s'.flight;
      assert PacketOk(peer, s', pkt);
      PacketIsFine(peer, macs, s', pkt);
      ImageAdd(peer, macs, a, b, pkt);
      assert Put(peer, w, p, m) == multiset{OnWire(peer, macs, pkt)};
    } else {
      assert a + Sent(peer, p, m) == a && b + Put(peer, w, p, m) == b;
    }
  }

  function WireEventOf(peer: Cabling, macs: map<Port, Bytes6>, e: Event): WireEvent {
    match e
    case HelloTimer(p) => HelloTick(p)
    case LspTimer(p, k) => LspTick(p, k)
    case Deliver(pkt) => Arrival(OnWire(peer, macs, pkt))
  }

  /** An event may happen in one network exactly if its counterpart may in the other. */
  lemma EnabledTogether(peer: Cabling, macs: map<Port, Bytes6>, s: Net, w: WireNet, e: Event)
    requires Carries(peer, macs, s, w) && (e.Deliver? ==> e.pkt in s.flight)
    ensures Enabled(s, e) <==> WireEnabled(w, WireEventOf(peer, macs, e))
  {
    match e {
      case HelloTimer(p) =>
      case LspTimer(p, k) =>
      case Deliver(pkt) => DeliveredTogether(peer, macs, s, w, pkt);
    }
  }

  lemma DeliveredTogether(peer: Cabling, macs: map<Port, Bytes6>, s: Net, w: WireNet, pkt: Packet)
    requires Carries(peer, macs, s, w) && pkt in s.flight
    ensures Enabled(s, Deliver(pkt)) <==> WireEnabled(w, Arrival(OnWire(peer, macs, pkt)))
  {
    var f := OnWire(peer, macs, pkt);
    OnWireDecodes(peer, macs, pkt);
    assert w.frames[f] == s.flight[pkt] > 0;
    assert f.dst == pkt.dst && (IsHello(f.bytes) <==> pkt.msg.HelloMsg?);
    assert HasPort(w, f.dst) <==> IsPort(s, pkt.dst);
  }

  lemma HelloTimerMatches(peer: Cabling, macs: map<Port, Bytes6>, s: Net, w: WireNet, p: Port)
    requires Inv(peer, s) && Carries(peer, macs, s, w) && Enabled(s, HelloTimer(p)) && WireEnabled(w, HelloTick(p))
    requires var s' := Apply(peer, s, HelloTimer(p)); Inv(peer, s') && MacsAre(peer, macs, s')
    ensures Carries(peer, macs, Apply(peer, s, HelloTimer(p)), WireApply(peer, w, HelloTick(p)))
  {
    var s' := Apply(peer, s, HelloTimer(p));
    SentImage(peer, macs, s, s', w, p, HelloMsg(PlainHello(s.nodes[p.node], p.intf)), s.flight, w.frames);
  }

  lemma LspTimerMatches(peer: Cabling, macs: map<Port, Bytes6>, s: Net, w: WireNet, p: Port, k: nat)
    requires Inv(peer, s) && Carries(peer, macs, s, w) && Enabled(s, LspTimer(p, k)) && WireEnabled(w, LspTick(p, k))
    requires var s' := Apply(peer, s, LspTimer(p, k)); Inv(peer, s') && MacsAre(peer, macs, s')
    ensures Carries(peer, macs, Apply(peer, s, LspTimer(p, k)), WireApply(peer, w, LspTick(p, k)))
  {
    var s' := Apply(peer, s, LspTimer(p, k));
    SentImage(peer, macs, s, s', w, p, LspMsg(s.nodes[p.node].db[k]), s.flight, w.frames);
  }

  /** What the receipt does on both sides, before and after the answer is put out. */
  lemma DeliveryIs(peer: Cabling, macs: map<Port, Bytes6>, s: Net, w: WireNet, pkt: Packet) returns (reply: Option<Hello>)
    requires w.nodes == s.nodes && Enabled(s, Deliver(pkt)) && WireEnabled(w, Arrival(OnWire(peer, macs, pkt)))
    requires ReceiveFrame(OnWire(peer, macs, pkt).bytes) == Some(pkt.msg)
    ensures var f := OnWire(peer, macs, pkt);
      var s', w' := Apply(peer, s, Deliver(pkt)), WireApply(peer, w, Arrival(f));
      && w'.nodes == s'.nodes
      && s'.flight == s.flight - multiset{pkt} + (if reply.Some? then Sent(peer, pkt.dst, HelloMsg(reply.value)) else multiset{})
      && w'.frames == w.frames - multiset{f} + (if reply.Some? then Put(peer, w, pkt.dst, HelloMsg(reply.value)) else multiset{})
  {
    match pkt.msg {
      case HelloMsg(h) => reply := ReceiveHello(s.nodes[pkt.dst.node], pkt.dst.intf, h).1;
      case LspMsg(_) => reply := None;
    }
  }

  lemma DeliverMatches(peer: Cabling, macs: map<Port, Bytes6>, s: Net, w: WireNet, pkt: Packet)
    requires Inv(peer, s) && Carries(peer, macs, s, w) && Enabled(s, Deliver(pkt))
    requires WireEnabled(w, Arrival(OnWire(peer, macs, pkt)))
    requires var s' := Apply(peer, s, Deliver(pkt)); Inv(peer, s') && MacsAre(peer, macs, s')
    ensures Carries(peer, macs, Apply(peer, s, Deliver(pkt)), WireApply(peer, w, Arrival(OnWire(peer, macs, pkt))))
  {
    var s', f := Apply(peer, s, Deliver(pkt)), OnWire(peer, macs, pkt);
    OnWireDecodes(peer, macs, pkt);
    ImageRemove(peer, macs, s.flight, w.frames, pkt);
    var reply := DeliveryIs(peer, macs, s, w, pkt);
    AnswerImage(peer, macs, s, s', w, pkt.dst, reply, s.flight - multiset{pkt}, w.frames - multiset{f});
  }

  /** The same for an answer, if there is one. */
  lemma AnswerImage(peer: Cabling, macs: map<Port, Bytes6>, s: Net, s': Net, w: WireNet, d: Port, reply: Option<Hello>,
                    a: multiset<Packet>, b: multiset<Frame>)
    requires IsImage(peer, macs, a, b) && Cabled(peer, s) && MacsAre(peer, macs, s) && w.nodes == s.nodes && IsPort(s, d)
    requires Cabled(peer, s') && LogOk(s') && PacketsOk(peer, s') && MacsAre(peer, macs, s')
    requires s'.flight == a + if reply.Some? then Sent(peer, d, HelloMsg(reply.value)) else multiset{}
    ensures IsImage(peer, macs, s'.flight, b + if reply.Some? then Put(peer, w, d, HelloMsg(reply.value)) else multiset{})
  {
    if reply.Some? {
      SentImage(peer, macs, s, s', w, d, HelloMsg(reply.value), a, b);
    } else {
      assert s'.flight == a && b + multiset{} == b;
    }
  }

  lemma ApplyMatches(peer: Cabling, macs: map<Port, Bytes6>, s: Net, w: WireNet, e: Event)
    requires Inv(peer, s) && Carries(peer, macs, s, w) && Enabled(s, e) && WireEnabled(w, WireEventOf(peer, macs, e))
    requires Inv(peer, Apply(peer, s, e)) && MacsAre(peer, macs, Apply(peer, s, e))
    ensures Carries(peer, macs, Apply(peer, s, e), WireApply(peer, w, WireEventOf(peer, macs, e)))
  {
    match e {
      case HelloTimer(p) => HelloTimerMatches(peer, macs, s, w, p);
      case LspTimer(p, k) => LspTimerMatches(peer, macs, s, w, p, k);
      case Deliver(pkt) => DeliverMatches(peer, macs, s, w, pkt);
    }
  }

  /** Both networks take the step together. */
  lemma StepsMatch(peer: Cabling, macs: map<Port, Bytes6>, s: Net, w: WireNet, e: Event)
    requires Inv(peer, s) && Carries(peer, macs, s, w) && Enabled(s, e)
    ensures Inv(peer, Apply(peer, s, e)) && WireEnabled(w, WireEventOf(peer, macs, e))
    ensures Carries(peer, macs, Apply(peer, s, e), WireApply(peer, w, WireEventOf(peer, macs, e)))
  {
    EnabledTogether(peer, macs, s, w, e);
    StepKeeps(peer, s, e);
    StepEvolves(peer, s, e);
    MacsKept(peer, macs, s, Apply(peer, s, e));
    ApplyMatches(peer, macs, s, w, e);
  }

  /** The message-level event behind a wire event. */
  lemma EventBehind(peer: Cabling, macs: map<Port, Bytes6>, s: Net, w: WireNet, x: WireEvent) returns (e: Event)
    requires Carries(peer, macs, s, w) && WireEnabled(w, x)
    ensures Enabled(s, e) && WireEventOf(peer, macs, e) == x
  {
    match x {
      case HelloTick(p) => e := HelloTimer(p);
      case LspTick(p, k) => e := LspTimer(p, k);
      case Arrival(f) =>
        var pkt :| pkt in s.flight && OnWire(peer, macs, pkt) == f;
        e := Deliver(pkt);
    }
    EnabledTogether(peer, macs, s, w, e);
  }

  /** The events of the two runs correspond one to one. */
  ghost predicate InStep(peer: Cabling, macs: map<Port, Bytes6>, es: seq<Event>, xs: seq<WireEvent>) {
    |es| == |xs| && forall i :: 0 <= i < |xs| ==> WireEventOf(peer, macs, es[i]) == xs[i]
  }

  lemma InStepFirst(peer: Cabling, macs: map<Port, Bytes6>, e: Event, es: seq<Event>, x: WireEvent, xs: seq<WireEvent>)
    requires WireEventOf(peer, macs, e) == x && InStep(peer, macs, es, xs)
    ensures InStep(peer, macs, [e] + es, [x] + xs)
  {
  }

  lemma StepThenRun(peer: Cabling, macs: map<Port, Bytes6>, s: Net, e: Event, s': Net, rest: seq<Event>, t: Net,
                    xs: seq<WireEvent>)
    requires Enabled(s, e) && s' == Apply(peer, s, e) && Leads(peer, s', rest, t)
    requires xs != [] && WireEventOf(peer, macs, e) == xs[0] && InStep(peer, macs, rest, xs[1..])
    ensures Leads(peer, s, [e] + rest, t) && InStep(peer, macs, [e] + rest, xs)
  {
    LeadsFirst(peer, s, e, rest, t);
    InStepFirst(peer, macs, e, rest, xs[0], xs[1..]);
    assert [xs[0]] + xs[1..] == xs;
  }

  /** Every run over the wire is a run of Network, event for event. */
  lemma {:induction false} WireRunIsRun(peer: Cabling, macs: map<Port, Bytes6>, s: Net, w: WireNet, xs: seq<WireEvent>, v: WireNet)
    returns (es: seq<Event>, t: Net)
    requires Inv(peer, s) && Carries(peer, macs, s, w) && WireLeads(peer, w, xs, v)
    ensures InStep(peer, macs, es, xs)
    ensures Leads(peer, s, es, t) && Carries(peer, macs, t, v)
    decreases |xs|
  {
    if xs == [] {
      es, t := [], s;
    } else {
      var e, s', w' := FirstWireStep(peer, macs, s, w, xs, v);
      var rest;
      rest, t := WireRunIsRun(peer, macs, s', w', xs[1..], v);
      es := [e] + rest;
      StepThenRun(peer, macs, s, e, s', rest, t, xs);
    }
  }

  lemma FirstWireStep(peer: Cabling, macs: map<Port, Bytes6>, s: Net, w: WireNet, xs: seq<WireEvent>, v: WireNet)
    returns (e: Event, s': Net, w': WireNet)
    requires Inv(peer, s) && Carries(peer, macs, s, w) && WireLeads(peer, w, xs, v) && xs != []
    ensures Enabled(s, e) && s' == Apply(peer, s, e) && WireEventOf(peer, macs, e) == xs[0]
    ensures Inv(peer, s') && Carries(peer, macs, s', w') && WireLeads(peer, w', xs[1..], v)
  {
    e := EventBehind(peer, macs, s, w, xs[0]);
    StepsMatch(peer, macs, s, w, e);
    s', w' := Apply(peer, s, e), WireApply(peer, w, xs[0]);
  }

  /** And every run of Network can be run over the wire. */
  lemma {:induction false} RunIsWireRun(peer: Cabling, macs: map<Port, Bytes6>, s: Net, w: WireNet, es: seq<Event>, t: Net)
    returns (xs: seq<WireEvent>, v: WireNet)
    requires Inv(peer, s) && Carries(peer, macs, s, w) && Leads(peer, s, es, t)
    ensures InStep(peer, macs, es, xs)
    ensures WireLeads(peer, w, xs, v) && Carries(peer, macs, t, v)
    decreases |es|
  {
    if es == [] {
      xs, v := [], w;
    } else {
      var x, s', w' := FirstStep(peer, macs, s, w, es, t);
      var rest;
      rest, v := RunIsWireRun(peer, macs, s', w', es[1..], t);
      xs := [x] + rest;
      StepThenWireRun(peer, macs, w, x, w', rest, v, es);
    }
  }

  lemma FirstStep(peer: Cabling, macs: map<Port, Bytes6>, s: Net, w: WireNet, es: seq<Event>, t: Net)
    returns (x: WireEvent, s': Net, w': WireNet)
    requires Inv(peer, s) && Carries(peer, macs, s, w) && Leads(peer, s, es, t) && es != []
    ensures WireEnabled(w, x) && w' == WireApply(peer, w, x) && WireEventOf(peer, macs, es[0]) == x
    ensures Inv(peer, s') && Carries(peer, macs, s', w') && Leads(peer, s', es[1..], t)
  {
    StepsMatch(peer, macs, s, w, es[0]);
    x := WireEventOf(peer, macs, es[0]);
    s', w' := Apply(peer, s, es[0]), WireApply(peer, w, x);
  }

  lemma StepThenWireRun(peer: Cabling, macs: map<Port, Bytes6>, w: WireNet, x: WireEvent, w': WireNet,
                        rest: seq<WireEvent>, v: WireNet, es: seq<Event>)
    requires WireEnabled(w, x) && w' == WireApply(peer, w, x) && WireLeads(peer, w', rest, v)
    requires es != [] && WireEventOf(peer, macs, es[0]) == x && InStep(peer, macs, es[1..], rest)
    ensures WireLeads(peer, w, [x] + rest, v) && InStep(peer, macs, es, [x] + rest)
  {
    WireLeadsFirst(peer, w, x, rest, v);
    InStepFirst(peer, macs, es[0], es[1..], x, rest);
    assert [es[0]] + es[1..] == es;
  }

  // ----- A pass of isisUpdate is a run --------------------------------------------------------

  lemma {:induction false} WireLeadsThen(peer: Cabling, w: WireNet, xs: seq<WireEvent>, v: WireNet, ys: seq<WireEvent>, z: WireNet)
    requires WireLeads(peer, w, xs, v) && WireLeads(peer, v, ys, z)
    ensures WireLeads(peer, w, xs + ys, z)
    decreases |xs|
  {
    if xs == [] {
      assert xs + ys == ys;
    } else {
      var w' := AfterFirstWire(peer, w, xs, v);
      WireLeadsThen(peer, w', xs[1..], v, ys, z);
      BeforeFirstWire(peer, w, xs, w', ys, z);
    }
  }

  lemma AfterFirstWire(peer: Cabling, w: WireNet, xs: seq<WireEvent>, v: WireNet) returns (w': WireNet)
    requires WireLeads(peer, w, xs, v) && xs != []
    ensures WireEnabled(w, xs[0]) && w' == WireApply(peer, w, xs[0]) && WireLeads(peer, w', xs[1..], v)
  {
    w' := WireApply(peer, w, xs[0]);
  }

  lemma BeforeFirstWire(peer: Cabling, w: WireNet, xs: seq<WireEvent>, w': WireNet, ys: seq<WireEvent>, z: WireNet)
    requires xs != [] && WireEnabled(w, xs[0]) && w' == WireApply(peer, w, xs[0])
    requires WireLeads(peer, w', xs[1..] + ys, z)
    ensures WireLeads(peer, w, xs + ys, z)
  {
    WireLeadsFirst(peer, w, xs[0], xs[1..] + ys, z);
    assert xs + ys == [xs[0]] + (xs[1..] + ys);
  }

  function Ticks(p: Port, ks: seq<nat>): seq<WireEvent> {
    if ks == [] then [] else Ticks(p, ks[..|ks| - 1]) + [LspTick(p, ks[|ks| - 1])]
  }

  /** These frames on their way out of port p. */
  function Outgoing(peer: Cabling, p: Port, frames: seq<seq<byte>>): multiset<Frame> {
    if frames == [] then multiset{}
    else
      Outgoing(peer, p, frames[..|frames| - 1]) +
      if p in peer then multiset{Frame(peer[p], frames[|frames| - 1])} else multiset{}
  }

  lemma OneTick(peer: Cabling, w: WireNet, p: Port, k: nat, raw: seq<byte>) returns (v: WireNet)
    requires HasPort(w, p) && MaySend(w.nodes[p.node], p.intf, k)
    requires raw == FrameOf(w.nodes[p.node].intfs[p.intf].mac, LspMsg(w.nodes[p.node].db[k]))
    ensures WireLeads(peer, w, [LspTick(p, k)], v)
    ensures v.nodes == w.nodes[p.node := ClearSrm(w.nodes[p.node], p.intf, k)]
    ensures v.frames == w.frames + if p in peer then multiset{Frame(peer[p], raw)} else multiset{}
  {
    v := WireApply(peer, w, LspTick(p, k));
    assert WireLeads(peer, v, [], v);
    WireLeadsFirst(peer, w, LspTick(p, k), [], v);
    assert [LspTick(p, k)] + [] == [LspTick(p, k)];
  }

  lemma CarryInit(db: map<nat, Lsp>, mac: Bytes6, ks: seq<nat>, frames: seq<seq<byte>>)
    requires CarryInOrder(db, mac, ks, frames) && ks != []
    ensures CarryInOrder(db, mac, ks[..|ks| - 1], frames[..|ks| - 1])
    ensures ks[|ks| - 1] in db && frames[|ks| - 1] == FrameOf(mac, LspMsg(db[ks[|ks| - 1]]))
  {
  }

  /** The sends of one pass of isisUpdate over an interface, as Router.UpdateScan delivers
      them, are a run of the network that ends with the router as the pass leaves it and
      with exactly the frames of the pass added to the wire. */
  lemma {:induction false} ScanIsRun(peer: Cabling, w: WireNet, p: Port, ks: seq<nat>, frames: seq<seq<byte>>)
    returns (v: WireNet)
    requires HasPort(w, p) && SendSequence(w.nodes[p.node], p.intf, ks)
    requires CarryInOrder(w.nodes[p.node].db, w.nodes[p.node].intfs[p.intf].mac, ks, frames)
    ensures WireLeads(peer, w, Ticks(p, ks), v)
    ensures v.nodes == w.nodes[p.node := AfterSends(w.nodes[p.node], p.intf, ks)]
    ensures v.frames == w.frames + Outgoing(peer, p, frames)
    decreases |ks|
  {
    if ks == [] {
      v := w;
    } else {
      var last := |ks| - 1;
      CarryInit(w.nodes[p.node].db, w.nodes[p.node].intfs[p.intf].mac, ks, frames);
      var u := ScanIsRun(peer, w, p, ks[..last], frames[..last]);
      v := ScanStep(peer, w, p, ks, frames, u);
    }
  }

  lemma ScanStep(peer: Cabling, w: WireNet, p: Port, ks: seq<nat>, frames: seq<seq<byte>>, u: WireNet) returns (v: WireNet)
    requires HasPort(w, p) && ks != [] && |frames| == |ks| && SendSequence(w.nodes[p.node], p.intf, ks)
    requires WireLeads(peer, w, Ticks(p, ks[..|ks| - 1]), u)
    requires u.nodes == w.nodes[p.node := AfterSends(w.nodes[p.node], p.intf, ks[..|ks| - 1])]
    requires u.frames == w.frames + Outgoing(peer, p, frames[..|ks| - 1])
    requires ks[|ks| - 1] in w.nodes[p.node].db
    requires frames[|ks| - 1] == FrameOf(w.nodes[p.node].intfs[p.intf].mac, LspMsg(w.nodes[p.node].db[ks[|ks| - 1]]))
    ensures WireLeads(peer, w, Ticks(p, ks), v)
    ensures v.nodes == w.nodes[p.node := AfterSends(w.nodes[p.node], p.intf, ks)]
    ensures v.frames == w.frames + Outgoing(peer, p, frames)
  {
    var last := |ks| - 1;
    v := OneTick(peer, u, p, ks[last], frames[last]);
    WireLeadsThen(peer, w, Ticks(p, ks[..last]), u, [LspTick(p, ks[last])], v);
  }

  // ----- Theorems over the wire ---------------------------------------------------------------

  /** The routers alone; for predicates that look at nothing else. */
  ghost function View(w: WireNet): Net {
    Net(w.nodes, multiset{}, {}, {})
  }

  /** v is reached over the wire from a booted, cabled network. */
  ghost predicate WireReachable(peer: Cabling, w: WireNet, xs: seq<WireEvent>, v: WireNet) {
    && w.frames == multiset{} && Initial(View(w)) && Cabled(peer, View(w))
    && WireLeads(peer, w, xs, v)
  }

  ghost function MacsOf(peer: Cabling, s: Net): map<Port, Bytes6>
    requires Cabled(peer, s)
  {
    map p | p in peer :: IntfAt(s, p).mac
  }

  /** The message-level run behind a run over the wire. */
  lemma RunBehind(peer: Cabling, w: WireNet, xs: seq<WireEvent>, v: WireNet)
    returns (es: seq<Event>, s: Net, macs: map<Port, Bytes6>)
    requires WireReachable(peer, w, xs, v)
    ensures ReachableBy(peer, View(w), es) && s == After(peer, View(w), es) && |es| == |xs|
    ensures Inv(peer, s) && Carries(peer, macs, s, v)
  {
    macs := MacsOf(peer, View(w));
    InitialInv(peer, View(w));
    es, s := WireRunIsRun(peer, macs, View(w), w, xs, v);
    ReachableInv(peer, View(w), es);
  }

  ghost predicate SafeFrame(v: WireNet, f: Frame) {
    && HasPort(v, f.dst) && Decodable(f.bytes) && (IsHello(f.bytes) || IsLsp(f.bytes))
    && (IsHello(f.bytes) ==> var h := ReceiveFrame(f.bytes).value.hello; h.tlvs == [] || |h.tlvs| == 2)
  }

  /** In every run every frame in flight can be decoded where it arrives, to a hello or an
      LSP, and a confirming hello has the second TLV that isisHelloRecv dereferences: the
      receiving side never indexes out of range. */
  lemma FramesAreSafe(peer: Cabling, w: WireNet, xs: seq<WireEvent>, v: WireNet, f: Frame)
    requires WireReachable(peer, w, xs, v) && f in v.frames
    ensures SafeFrame(v, f)
  {
    var es, s, macs := RunBehind(peer, w, xs, v);
    var pkt :| pkt in s.flight && OnWire(peer, macs, pkt) == f;
    PacketIsSafe(peer, macs, s, v, pkt);
  }

  lemma PacketIsSafe(peer: Cabling, macs: map<Port, Bytes6>, s: Net, v: WireNet, pkt: Packet)
    requires PacketsOk(peer, s) && v.nodes == s.nodes && pkt in s.flight && Fine(peer, macs, pkt)
    ensures SafeFrame(v, OnWire(peer, macs, pkt))
  {
    assert PacketOk(peer, s, pkt);
    OnWireDecodes(peer, macs, pkt);
  }

  /** No LSP is on the wire and no UP interface has an SRM flag set. */
  ghost predicate WireQuiescent(v: WireNet) {
    && (forall f :: f in v.frames ==> !IsLsp(f.bytes))
    && Quiescent(View(v))
  }

  lemma QuiescentBehind(peer: Cabling, macs: map<Port, Bytes6>, s: Net, v: WireNet)
    requires Carries(peer, macs, s, v) && WireQuiescent(v)
    ensures Quiescent(s)
  {
    forall pkt | pkt in s.flight ensures !pkt.msg.LspMsg? {
      OnWireDecodes(peer, macs, pkt);
      assert v.frames[OnWire(peer, macs, pkt)] > 0;
    }
    forall p, k | IsPort(s, p) && IntfAt(s, p).adj.state == UP && k in IntfAt(s, p).flood
      ensures !IntfAt(s, p).flood[k]
    {
      assert IsPort(View(v), p) && IntfAt(View(v), p) == IntfAt(s, p);
    }
  }

  lemma LinkUpSame(peer: Cabling, s: Net, t: Net, p: Port)
    requires s.nodes == t.nodes
    ensures LinkUp(peer, s, p) <==> LinkUp(peer, t, p)
  {
  }

  lemma {:induction false} UpChainSame(peer: Cabling, s: Net, t: Net, a: nat, b: nat, ps: seq<Port>)
    requires s.nodes == t.nodes
    ensures UpChain(peer, s, a, b, ps) <==> UpChain(peer, t, a, b, ps)
    decreases |ps|
  {
    if ps != [] {
      LinkUpSame(peer, s, t, ps[0]);
      if ps[0] in peer {
        UpChainSame(peer, s, t, peer[ps[0]].node, b, ps[1..]);
      }
    }
  }

  /** Convergence over the wire: once no LSP is in flight and no SRM flag pending, routers
      joined by links UP at both ends hold identical databases, each with the current LSP
      of the other. */
  lemma WireConvergence(peer: Cabling, w: WireNet, xs: seq<WireEvent>, v: WireNet, a: nat, b: nat, ps: seq<Port>)
    requires WireReachable(peer, w, xs, v) && WireQuiescent(v) && UpChain(peer, View(v), a, b, ps)
    ensures a < |v.nodes| && b < |v.nodes| && v.nodes[a].db == v.nodes[b].db
    ensures v.nodes[b].sequenceNumber > 0 ==>
              && OwnKey(v.nodes[b]) in v.nodes[a].db
              && SequenceNumber(v.nodes[a].db[OwnKey(v.nodes[b])]) == v.nodes[b].sequenceNumber
              && v.nodes[a].db[OwnKey(v.nodes[b])].core.tlvs == OwnTlvs(v.nodes[b].intfs)
              && Advertises(v.nodes[a].db[OwnKey(v.nodes[b])].core.tlvs, v.nodes[b].intfs)
  {
    var es, s, macs := RunBehind(peer, w, xs, v);
    QuiescentBehind(peer, macs, s, v);
    UpChainSame(peer, s, View(v), a, b, ps);
    DatabasesConverge(peer, View(w), es, a, b, ps);
  }

  // ----- Forwarding over the wire --------------------------------------------------------------

  lemma RouteSame(peer: Cabling, s: Net, t: Net, spf: seq<seq<Triple>>, d: nat, route: seq<nat>)
    requires s.nodes == t.nodes && IsRoute(peer, s, spf, d, route)
    ensures IsRoute(peer, t, spf, d, route)
  {
    forall k | 0 <= k < |route|
      ensures HasTable(t, spf, route[k]) && Records(t, spf[route[k]], d, 10 * (|route| - 1 - k))
    {
      assert HasTable(s, spf, route[k]) && Records(s, spf[route[k]], d, 10 * (|route| - 1 - k));
    }
    forall k | 0 <= k < |route| - 1 ensures Hop(peer, t, spf, d, route[k], route[k + 1]) {
      HopSame(peer, s, t, spf, d, route[k], route[k + 1]);
    }
  }

  lemma HopSame(peer: Cabling, s: Net, t: Net, spf: seq<seq<Triple>>, d: nat, a: nat, b: nat)
    requires s.nodes == t.nodes && Hop(peer, s, spf, d, a, b)
    ensures Hop(peer, t, spf, d, a, b)
  {
    var p :| p in peer && p.node == a && peer[p].node == b && ForwardsVia(s, spf[a], d, p);
    assert ForwardsVia(t, spf[a], d, p);
  }

  lemma FreshSpfSame(s: Net, t: Net, ls: seq<seq<Lsp>>, spf: seq<seq<Triple>>)
    requires s.nodes == t.nodes && FreshSpf(s, ls, spf)
    ensures FreshSpf(t, ls, spf)
  {
    assert Views(t, ls);
    forall a | 0 <= a < |t.nodes| && t.nodes[a].sequenceNumber > 0 ensures IsSpfResult(G(t, ls, a), Name(t, a), Adjs(t.nodes[a]), spf[a]) {
      assert IsSpfResult(G(s, ls, a), Name(s, a), Adjs(s.nodes[a]), spf[a]);
    }
  }

  lemma UpPortSame(peer: Cabling, s: Net, t: Net, p: Port)
    requires s.nodes == t.nodes
    ensures UpPort(peer, s, p) <==> UpPort(peer, t, p)
  {
  }

  lemma {:induction false} PathSame(peer: Cabling, s: Net, t: Net, a: nat, b: nat, ps: seq<Port>)
    requires s.nodes == t.nodes && Path(peer, s, a, b, ps)
    ensures Path(peer, t, a, b, ps)
    decreases |ps|
  {
    if ps != [] {
      UpPortSame(peer, s, t, ps[0]);
      PathSame(peer, s, t, peer[ps[0]].node, b, ps[1..]);
    }
  }

  lemma ReachesSame(peer: Cabling, s: Net, t: Net, a: nat, b: nat)
    requires s.nodes == t.nodes && Reaches(peer, s, a, b)
    ensures Reaches(peer, t, a, b)
  {
    var ps :| Path(peer, s, a, b, ps);
    PathSame(peer, s, t, a, b, ps);
  }

  lemma JoinedSame(peer: Cabling, s: Net, t: Net, a: nat, b: nat)
    requires s.nodes == t.nodes && Joined(peer, s, a, b)
    ensures Joined(peer, t, a, b)
  {
    ReachesSame(peer, s, t, a, b);
    ReachesSame(peer, s, t, b, a);
  }

  /** Loop-free forwarding over the wire. */
  lemma WireForwarding(peer: Cabling, w: WireNet, xs: seq<WireEvent>, v: WireNet,
                       ls: seq<seq<Lsp>>, spf: seq<seq<Triple>>, a: nat, d: nat) returns (route: seq<nat>)
    requires WireReachable(peer, w, xs, v) && WireQuiescent(v)
    requires SingleLinks(peer, View(v)) && FreshSpf(View(v), ls, spf)
    requires a < |v.nodes| && d < |v.nodes| && Joined(peer, View(v), a, d)
    requires a == d ==> v.nodes[a].sequenceNumber > 0
    ensures IsRoute(peer, View(v), spf, d, route) && route[0] == a
    ensures forall j, k :: 0 <= j < k < |route| ==> route[j] != route[k]
    ensures forall k, b :: 0 <= k < |route| - 1 && b >= 0 && Hop(peer, View(v), spf, d, route[k], b) ==>
              b == route[k + 1]
  {
    var es, s, macs := RunBehind(peer, w, xs, v);
    QuiescentBehind(peer, macs, s, v);
    JoinedSame(peer, View(v), s, a, d);
    FreshSpfSame(View(v), s, ls, spf);
    route := LoopFreeForwarding(peer, View(w), es, ls, spf, a, d);
    RouteSame(peer, s, View(v), spf, d, route);
    forall k, b | 0 <= k < |route| - 1 && b >= 0 && Hop(peer, View(v), spf, d, route[k], b) ensures b == route[k + 1] {
      HopSame(peer, View(v), s, spf, d, route[k], b);
    }
  }

  lemma BothEndsUpSame(peer: Cabling, s: Net, t: Net)
    requires s.nodes == t.nodes && BothEndsUp(peer, s)
    ensures BothEndsUp(peer, t)
  {
    forall p | IsPort(t, p) && IntfAt(t, p).adj.state == UP ensures LinkUp(peer, t, p) {
      assert IsPort(s, p) && IntfAt(s, p).adj.state == UP;
      LinkUpSame(peer, s, t, p);
    }
  }

  lemma QuiescentAhead(peer: Cabling, macs: map<Port, Bytes6>, s: Net, v: WireNet)
    requires Carries(peer, macs, s, v) && Quiescent(s)
    ensures WireQuiescent(v)
  {
    forall f | f in v.frames ensures !IsLsp(f.bytes) {
      var pkt :| pkt in s.flight && OnWire(peer, macs, pkt) == f;
      OnWireDecodes(peer, macs, pkt);
    }
    forall p, k | IsPort(View(v), p) && IntfAt(View(v), p).adj.state == UP && k in IntfAt(View(v), p).flood
      ensures !IntfAt(View(v), p).flood[k]
    {
      assert IsPort(s, p) && IntfAt(View(v), p) == IntfAt(s, p);
    }
  }

  /** From boot, some run over the wire brings every link UP at both ends and flooding to
      rest: the states of the theorems above are reached. */
  lemma WireBecomesCalm(peer: Cabling, w: WireNet) returns (xs: seq<WireEvent>, v: WireNet)
    requires w.frames == multiset{} && Initial(View(w)) && Cabled(peer, View(w)) && |peer| <= MAX_UINT32
    ensures WireReachable(peer, w, xs, v) && WireQuiescent(v) && BothEndsUp(peer, View(v))
    ensures forall p :: p in peer ==> LinkUp(peer, View(v), p)
  {
    var s, macs := View(w), MacsOf(peer, View(w));
    InitialInv(peer, s);
    CardMonotone(NotUp(peer, s), peer.Keys);
    var es := BecomesCalm(peer, s);
    var t := After(peer, s, es);
    xs, v := RunIsWireRun(peer, macs, s, w, es, t);
    QuiescentAhead(peer, macs, t, v);
    BothEndsUpSame(peer, t, View(v));
    forall p | p in peer ensures LinkUp(peer, View(v), p) {
      LinkUpSame(peer, t, View(v), p);
    }
  }
}
