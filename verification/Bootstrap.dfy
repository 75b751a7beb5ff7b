/** The states the forwarding theorem speaks of can be reached: from any state of any
    run, hellos bring every link UP at both ends and flooding then goes quiet. */
module Bootstrap {
  import opened Bytes
  import opened Sets
  import opened Interfaces
  import opened Nodes
  import opened Network
  import opened NodeSteps
  import opened Safety
  import opened Convergence
  import opened Termination
  import opened Handshake

  ghost predicate BothEndsUp(peer: Cabling, s: Net) {
    forall p :: IsPort(s, p) && IntfAt(s, p).adj.state == UP ==> LinkUp(peer, s, p)
  }

  /** Flooding is quiet and every adjacency is UP at both ends. */
  ghost predicate Calm(peer: Cabling, s: Net) {
    Inv(peer, s) && Quiescent(s) && BothEndsUp(peer, s)
  }

  /** The cabled ports that are not UP yet. */
  ghost function NotUp(peer: Cabling, s: Net): set<Port>
    requires Cabled(peer, s)
  {
    set p | p in peer && IntfAt(s, p).adj.state != UP
  }

  /** Every router can still generate n LSPs before its counter is full. */
  ghost predicate Room(s: Net, n: nat) {
    forall a :: 0 <= a < |s.nodes| ==> s.nodes[a].sequenceNumber + n <= MAX_UINT32
  }

  lemma ProperSubset(a: set<Port>, b: set<Port>, p: Port)
    requires a <= b && p in b && p !in a
    ensures |a| < |b|
  {
    assert a <= b - {p};
    CardMonotone(a, b - {p});
  }

  lemma StaysUp(peer: Cabling, s: Net, es: seq<Event>, t: Net, p: Port)
    requires Leads(peer, s, es, t) && IsPort(s, p) && IntfAt(s, p).adj.state == UP
    ensures IsPort(t, p) && IntfAt(t, p).adj.state == UP
  {
    RunNeverBackwards(peer, s, es, p);
  }

  lemma NotUpShrinks(peer: Cabling, s: Net, es: seq<Event>, t: Net)
    requires Cabled(peer, s) && Leads(peer, s, es, t) && Cabled(peer, t)
    ensures NotUp(peer, t) <= NotUp(peer, s)
  {
    forall p | p in peer && IntfAt(s, p).adj.state == UP ensures p !in NotUp(peer, t) {
      StaysUp(peer, s, es, t, p);
    }
  }

  lemma RoomLeft(s: Net, t: Net, n: nat, k: nat)
    requires Room(s, n) && OneMoreEach(s, t) && k < n
    ensures Room(t, k)
  {
  }

  lemma ExchangeLeads(peer: Cabling, s: Net, p: Port) returns (es: seq<Event>, t: Net)
    requires Inv(peer, s) && p in peer && IntfAt(s, p).adj.state != UP && Room(s, 1)
    ensures Leads(peer, s, es, t) && Inv(peer, t) && OneMoreEach(s, t)
    ensures IsPort(t, p) && IntfAt(t, p).adj.state == UP
  {
    es := Exchange(peer, s, p);
    HandshakeCompletes(peer, s, p);
    RunKeeps(peer, s, es);
    t := After(peer, s, es);
  }

  /** One exchange brings one more port UP and costs each router at most one LSP. */
  lemma OneMoreUp(peer: Cabling, s: Net, p: Port) returns (es: seq<Event>, t: Net)
    requires Inv(peer, s) && p in NotUp(peer, s) && Room(s, |NotUp(peer, s)|)
    ensures Leads(peer, s, es, t) && Inv(peer, t)
    ensures |NotUp(peer, t)| < |NotUp(peer, s)| && Room(t, |NotUp(peer, t)|)
  {
    assert |NotUp(peer, s)| > 0;
    es, t := ExchangeLeads(peer, s, p);
    NotUpShrinks(peer, s, es, t);
    ProperSubset(NotUp(peer, t), NotUp(peer, s), p);
    RoomLeft(s, t, |NotUp(peer, s)|, |NotUp(peer, t)|);
  }

  lemma {:induction false} AllUp(peer: Cabling, s: Net) returns (es: seq<Event>, t: Net)
    requires Inv(peer, s) && Room(s, |NotUp(peer, s)|)
    ensures Leads(peer, s, es, t) && Inv(peer, t) && NotUp(peer, t) == {}
    decreases |NotUp(peer, s)|
  {
    if p :| p in NotUp(peer, s) {
      var fs, u := OneMoreUp(peer, s, p);
      var gs;
      gs, t := AllUp(peer, u);
      es := fs + gs;
      LeadsThen(peer, s, fs, u, gs, t);
    } else {
      es, t := [], s;
    }
  }

  /** With every cabled port UP, every UP port is on a link that is UP at both ends. */
  lemma AllLinksUp(peer: Cabling, s: Net, p: Port)
    requires Cabled(peer, s) && AdjsOk(peer, s) && NotUp(peer, s) == {}
    requires IsPort(s, p) && IntfAt(s, p).adj.state == UP
    ensures LinkUp(peer, s, p)
  {
    assert AdjOk(peer, s, p);
    assert peer[p] !in NotUp(peer, s);
  }

  /** From every state of every run in which the counters have room, the network can
      still become calm with every cabled link UP at both ends. */
  lemma BecomesCalm(peer: Cabling, s: Net) returns (es: seq<Event>)
    requires Inv(peer, s) && Room(s, |NotUp(peer, s)|)
    ensures IsRun(peer, s, es) && Calm(peer, After(peer, s, es))
    ensures forall p :: p in peer ==> LinkUp(peer, After(peer, s, es), p)
  {
    var fs, t := AllUp(peer, s);
    var gs := FloodingFinishes(peer, t);
    var u := After(peer, t, gs);
    es := fs + gs;
    LeadsThen(peer, s, fs, t, gs, u);
    NotUpShrinks(peer, t, gs, u);
    CalmWhenAllUp(peer, u);
  }

  lemma CalmWhenAllUp(peer: Cabling, s: Net)
    requires Inv(peer, s) && Quiescent(s) && NotUp(peer, s) == {}
    ensures Calm(peer, s) && forall p :: p in peer ==> LinkUp(peer, s, p)
  {
    forall p | IsPort(s, p) && IntfAt(s, p).adj.state == UP ensures LinkUp(peer, s, p) {
      AllLinksUp(peer, s, p);
    }
    forall p | p in peer ensures LinkUp(peer, s, p) {
      assert p !in NotUp(peer, s);
    }
  }

  // ----- Every run ------------------------------------------------------------------------------

  /** How many of the events are sends of LSPs and deliveries. */
  function Moves(es: seq<Event>): nat {
    if es == [] then 0 else (if es[0].HelloTimer? then 0 else 1) + Moves(es[1..])
  }

  /** g for every greeting put on a link. */
  function Charge(peer: Cabling, es: seq<Event>, g: nat): nat {
    if es == [] then 0 else (if Greets(peer, es[0]) then g else 0) + Charge(peer, es[1..], g)
  }

  /** A reply in flight may cause one generation, and that at most 2 * PortCount sends and
      receipts; a greeting may cause a reply. */
  function HelloWeights(nodes: seq<Node>): Weights {
    var c := 2 * PortCount(nodes) + 1;
    Weights(c + 1, c, 1)
  }

  ghost function Potential(s: Net): int {
    Measure(HelloWeights(s.nodes), s)
  }

  lemma {:induction false} PortCountSame(a: seq<Node>, b: seq<Node>)
    requires |a| == |b| && forall i :: 0 <= i < |a| ==> |b[i].intfs| == |a[i].intfs|
    ensures PortCount(b) == PortCount(a)
  {
    if a != [] {
      PortCountSame(a[..|a| - 1], b[..|b| - 1]);
    }
  }

  lemma SameWeights(s: Net, t: Net)
    requires Evolves(s, t)
    ensures HelloWeights(t.nodes) == HelloWeights(s.nodes)
  {
    forall i | 0 <= i < |s.nodes| ensures |t.nodes[i].intfs| == |s.nodes[i].intfs| {
      assert NodeEvolves(s.nodes[i], t.nodes[i]);
    }
    PortCountSame(s.nodes, t.nodes);
  }

  lemma MoveLowers(peer: Cabling, s: Net, e: Event)
    ensures Gain(peer, s, e, HelloWeights(s.nodes)) <=
            if Greets(peer, e) then HelloWeights(s.nodes).greeting else if e.HelloTimer? then 0 else -1
  {
  }

  lemma PotentialStep(peer: Cabling, s: Net, e: Event)
    requires Inv(peer, s) && Enabled(s, e)
    ensures HelloWeights(Apply(peer, s, e).nodes) == HelloWeights(s.nodes)
    ensures Potential(Apply(peer, s, e)) <= Potential(s) +
            if Greets(peer, e) then HelloWeights(s.nodes).greeting else if e.HelloTimer? then 0 else -1
  {
    StepEvolves(peer, s, e);
    SameWeights(s, Apply(peer, s, e));
    StepMeasure(peer, s, e, HelloWeights(s.nodes));
    MoveLowers(peer, s, e);
  }

  /** In every run, the sends of LSPs and the deliveries, hellos and generations included,
      are bounded by what was left to do at the start and the greetings sent on the way. */
  lemma {:induction false} EveryRunIsBounded(peer: Cabling, s: Net, es: seq<Event>)
    requires Inv(peer, s) && IsRun(peer, s, es)
    ensures Moves(es) <= Potential(s) + Charge(peer, es, HelloWeights(s.nodes).greeting)
    decreases |es|
  {
    if es == [] {
      MeasureNonNegative(peer, s, HelloWeights(s.nodes));
    } else {
      StepKeeps(peer, s, es[0]);
      PotentialStep(peer, s, es[0]);
      EveryRunIsBounded(peer, Apply(peer, s, es[0]), es[1..]);
    }
  }

  lemma AllCabledUp(peer: Cabling, s: Net)
    requires Cabled(peer, s) && NotUp(peer, s) == {}
    ensures forall p :: p in peer ==> IntfAt(s, p).adj.state == UP
  {
    forall p | p in peer ensures IntfAt(s, p).adj.state == UP {
      assert p !in NotUp(peer, s);
    }
  }

  lemma AllUpStep(peer: Cabling, s: Net, e: Event)
    requires Cabled(peer, s) && NotUp(peer, s) == {} && Enabled(s, e) && Cabled(peer, Apply(peer, s, e))
    ensures !Greets(peer, e) && NotUp(peer, Apply(peer, s, e)) == {}
  {
    AllCabledUp(peer, s);
    LeadsOne(peer, s, e);
    NotUpShrinks(peer, s, [e], Apply(peer, s, e));
  }

  lemma {:induction false} NoMoreGreetings(peer: Cabling, s: Net, es: seq<Event>, g: nat)
    requires Inv(peer, s) && IsRun(peer, s, es) && NotUp(peer, s) == {}
    ensures Charge(peer, es, g) == 0
    decreases |es|
  {
    if es != [] {
      StepKeeps(peer, s, es[0]);
      AllUpStep(peer, s, es[0]);
      NoMoreGreetings(peer, Apply(peer, s, es[0]), es[1..], g);
    }
  }

  /** Once every cabled port is UP, every run makes at most Potential(s) more moves. */
  lemma OnceUpRunsEnd(peer: Cabling, s: Net, es: seq<Event>)
    requires Inv(peer, s) && IsRun(peer, s, es) && NotUp(peer, s) == {}
    ensures Moves(es) <= Potential(s)
  {
    EveryRunIsBounded(peer, s, es);
    NoMoreGreetings(peer, s, es, HelloWeights(s.nodes).greeting);
  }

  /** Nothing is left to happen: only timers on ports with no cable, which send nothing. */
  ghost predicate Ended(peer: Cabling, s: Net) {
    forall e :: Enabled(s, e) ==> e.HelloTimer? && e.port !in peer
  }

  /** A run can end exactly in the calm states with every cabled link UP at both ends and
      nothing in flight; so every run that cannot be continued ends calm. */
  lemma EndedIffCalm(peer: Cabling, s: Net)
    requires Inv(peer, s) && Room(s, 1)
    ensures Ended(peer, s) <==> Calm(peer, s) && NotUp(peer, s) == {} && s.flight == multiset{}
  {
    if Ended(peer, s) {
      EndedIsCalm(peer, s);
    }
    if Calm(peer, s) && NotUp(peer, s) == {} && s.flight == multiset{} {
      QuiescentIsStuck(s);
      AllCabledUp(peer, s);
      forall e | Enabled(s, e) ensures e.HelloTimer? && e.port !in peer {
        assert !IsFloodEvent(e);
      }
    }
  }

  lemma EndedIsCalm(peer: Cabling, s: Net)
    requires Inv(peer, s) && Room(s, 1) && Ended(peer, s)
    ensures Calm(peer, s) && NotUp(peer, s) == {} && s.flight == multiset{}
  {
    forall p | p in peer ensures p !in NotUp(peer, s) {
      assert Enabled(s, HelloTimer(p)) ==> p !in peer;
    }
    forall pkt ensures pkt !in s.flight {
      if pkt in s.flight {
        assert PacketOk(peer, s, pkt);
        assert Enabled(s, Deliver(pkt));
      }
    }
    forall e | IsFloodEvent(e) ensures !Enabled(s, e) {
    }
    StuckIsQuiescent(peer, s);
    CalmWhenAllUp(peer, s);
  }
}
