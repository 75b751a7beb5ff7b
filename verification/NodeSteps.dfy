/** What every handler keeps at its own router. */
module NodeSteps {
  import opened Bytes
  import opened Lsps
  import opened Interfaces
  import opened Nodes
  import opened Network
  import opened Adverts
  import opened Wrappers
  import opened TlvList
  import opened Hellos
  import SystemId

  /** Configuration is fixed, the counter does not go back, what is UP stays UP, and no
      stored LSP is ever replaced by an older one or dropped. */
  ghost predicate NodeEvolves(n: Node, n': Node) {
    && n'.sid == n.sid && |n'.intfs| == |n.intfs| && n.sequenceNumber <= n'.sequenceNumber
    && (forall i :: 0 <= i < |n.intfs| ==>
          && n'.intfs[i].mac == n.intfs[i].mac && n'.intfs[i].prefix == n.intfs[i].prefix
          && n'.intfs[i].routes == n.intfs[i].routes
          && (n.intfs[i].adj.state == UP ==> n'.intfs[i].adj.state == UP))
    && (forall k :: k in n.db ==> Has(n', k, SequenceNumber(n.db[k])))
  }

  /** The interfaces advertise the same adjacencies and routes. */
  ghost predicate SameAdvert(a: seq<Intf>, b: seq<Intf>) {
    |a| == |b| && forall i :: 0 <= i < |a| ==>
      && b[i].routes == a[i].routes && (b[i].adj.state == UP <==> a[i].adj.state == UP)
      && (a[i].adj.state == UP ==> b[i].adj.neighborSystemID == a[i].adj.neighborSystemID)
  }

  lemma {:induction false} SameAdvertSameTlvs(a: seq<Intf>, b: seq<Intf>)
    requires SameAdvert(a, b)
    ensures UpIds(a) == UpIds(b) && AllRoutes(a) == AllRoutes(b)
  {
    if a != [] {
      SameAdvertSameTlvs(a[..|a| - 1], b[..|b| - 1]);
    }
  }

  lemma {:induction false} SameRoutes(a: seq<Intf>, b: seq<Intf>)
    requires |a| == |b| && forall i :: 0 <= i < |a| ==> b[i].routes == a[i].routes
    ensures AllRoutes(a) == AllRoutes(b)
  {
    if a != [] {
      SameRoutes(a[..|a| - 1], b[..|b| - 1]);
    }
  }

  lemma OwnKeyInjective(n: Node, m: Node)
    requires OwnKey(n) == OwnKey(m)
    ensures n.sid == m.sid
  {
    var a, b := SystemId.LspId(n.sid), SystemId.LspId(m.sid);
    Uint64Injective(a, b);
    assert n.sid == a[..6] && m.sid == b[..6];
  }

  /** No copy of a router's own LSP can be newer than the one it stores. */
  lemma OwnIsNewest(s: Net, a: nat, l: Lsp)
    requires a < |s.nodes| && NodeOk(s, s.nodes[a]) && Owned(s, l)
    requires forall i, j :: 0 <= i < j < |s.nodes| ==> s.nodes[i].sid != s.nodes[j].sid
    requires l.key == OwnKey(s.nodes[a])
    ensures s.nodes[a].sequenceNumber > 0 && !IsNewer(s.nodes[a].db, l)
  {
    var o :| 0 <= o < |s.nodes| && OwnKey(s.nodes[o]) == l.key
             && 1 <= SequenceNumber(l) <= s.nodes[o].sequenceNumber;
    OwnKeyInjective(s.nodes[o], s.nodes[a]);
    assert o == a;
  }

  lemma ReceiveLspEvolves(n: Node, i: nat, l: Lsp)
    ensures var n' := ReceiveLsp(n, i, l); NodeEvolves(n, n') && Has(n', l.key, SequenceNumber(l))
  {
  }

  lemma ReceiveLspKeeps(s: Net, a: nat, i: nat, l: Lsp)
    requires a < |s.nodes| && NodeOk(s, s.nodes[a]) && l in s.log && Owned(s, l)
    requires forall i, j :: 0 <= i < j < |s.nodes| ==> s.nodes[i].sid != s.nodes[j].sid
    ensures NodeOk(s, ReceiveLsp(s.nodes[a], i, l))
  {
    var n := s.nodes[a];
    var n' := ReceiveLsp(n, i, l);
    if IsNewer(n.db, l) {
      if l.key == OwnKey(n) {
        OwnIsNewest(s, a, l);
        assert false;
      }
      assert n'.db.Keys == n.db.Keys + {l.key};
      SameAdvertSameTlvs(n.intfs, n'.intfs);
    }
  }

  lemma ClearSrmEvolves(n: Node, i: nat, k: nat)
    requires i < |n.intfs|
    ensures NodeEvolves(n, ClearSrm(n, i, k))
  {
  }

  lemma ClearSrmKeeps(s: Net, n: Node, i: nat, k: nat)
    requires NodeOk(s, n) && MaySend(n, i, k)
    ensures NodeEvolves(n, ClearSrm(n, i, k)) && NodeOk(s, ClearSrm(n, i, k))
  {
    var n' := ClearSrm(n, i, k);
    ClearSrmEvolves(n, i, k);
    assert n'.intfs[i].flood.Keys == n.intfs[i].flood.Keys;
    SameAdvertSameTlvs(n.intfs, n'.intfs);
  }

  lemma GreetingKeeps(s: Net, n: Node, i: nat)
    requires NodeOk(s, n) && i < |n.intfs|
    ensures var n' := SetAdj(n, i, Initialized(n.intfs[i].adj)); NodeEvolves(n, n') && NodeOk(s, n')
  {
    var n' := SetAdj(n, i, Initialized(n.intfs[i].adj));
    SameAdvertSameTlvs(n.intfs, n'.intfs);
  }

  /** The freshly generated LSP. */
  function NewLsp(n: Node): Lsp {
    MakeLsp(n.sid, AddUint32(n.sequenceNumber, 1), OwnTlvs(n.intfs))
  }

  lemma NewLspIs(n: Node)
    requires n.sequenceNumber < MAX_UINT32
    ensures var l := NewLsp(n);
      && l == GenerateLocal(n).db[OwnKey(n)] && l.key == OwnKey(n) && WellKeyed(l)
      && SequenceNumber(l) == n.sequenceNumber + 1 == GenerateLocal(n).sequenceNumber
      && l.core.header == LSP_PDU_HEADER && AllReadable(l.core.tlvs)
  {
    AddUint32Fits(n.sequenceNumber, 1);
    Uint32RoundTrip(n.sequenceNumber + 1);
    LocalTlvsListAdjacencies(AllRoutes(n.intfs), UpIds(n.intfs));
  }

  lemma ConfirmEvolves(s: Net, n: Node, i: nat, a: Adjacency)
    requires NodeOk(s, n) && i < |n.intfs| && n.sequenceNumber < MAX_UINT32 && a.state == UP
    ensures NodeEvolves(n, GenerateLocal(SetAdj(n, i, a)))
  {
    NewLspIs(SetAdj(n, i, a));
  }

  lemma GenerateOwnLspOk(n: Node)
    requires n.sequenceNumber < MAX_UINT32
    ensures OwnLspOk(GenerateLocal(n))
  {
    NewLspIs(n);
    SameAdvertSameTlvs(n.intfs, GenerateLocal(n).intfs);
  }

  lemma ConfirmKeeps(s: Net, n: Node, i: nat, a: Adjacency, s': Net)
    requires NodeOk(s, n) && i < |n.intfs| && n.sequenceNumber < MAX_UINT32
    requires s.log + {NewLsp(SetAdj(n, i, a))} <= s'.log
    ensures NodeOk(s', GenerateLocal(SetAdj(n, i, a)))
  {
    var m := SetAdj(n, i, a);
    var n' := GenerateLocal(m);
    NewLspIs(m);
    GenerateOwnLspOk(m);
    assert n'.db == n.db[OwnKey(n) := NewLsp(m)];
    assert n'.db.Keys == n.db.Keys + {OwnKey(n)};
    forall j | 0 <= j < |n'.intfs|
      ensures n'.intfs[j].flood.Keys == n'.db.Keys
    {
      assert m.intfs[j].flood == n.intfs[j].flood;
    }
  }

  // ----- What a hello does, by its source, its TLVs and our MAC -------------------------------

  lemma KindOfHello(n: Node, i: nat, h: Hello)
    requires i < |n.intfs|
    ensures Classify(n, i, h) ==
      if h.source == n.sid then OwnHello
      else if h.tlvs == [] then Greeting
      else if h.tlvs[0].valueTLV == n.intfs[i].mac then Confirms
      else Other
  {
    if SystemId.Text(h.source) == SystemId.Text(n.sid) {
      SystemId.TextInjective(h.source, n.sid);
    }
  }

  lemma HelloResult(n: Node, i: nat, h: Hello)
    requires i < |n.intfs|
    ensures ReceiveHello(n, i, h) ==
      if h.source == n.sid then (n, None)
      else if h.tlvs == [] then (SetAdj(n, i, Initialized(n.intfs[i].adj)), Some(Reply(n, i, h.sourceMac)))
      else if h.tlvs[0].valueTLV == n.intfs[i].mac then (GenerateLocal(SetAdj(n, i, BroughtUp(n.intfs[i].adj, h))), None)
      else (n, None)
    ensures SystemId.Text(h.source) == SystemId.Text(n.sid) <==> h.source == n.sid
  {
    KindOfHello(n, i, h);
    if SystemId.Text(h.source) == SystemId.Text(n.sid) {
      SystemId.TextInjective(h.source, n.sid);
    }
  }

  /** Our own hello, and a reply to somebody else, are ignored. */
  lemma IgnoredHello(n: Node, i: nat, h: Hello)
    requires i < |n.intfs| && (h.source == n.sid || (h.tlvs != [] && h.tlvs[0].valueTLV != n.intfs[i].mac))
    ensures ReceiveHello(n, i, h) == (n, None)
  {
    KindOfHello(n, i, h);
  }

  /** The adjacency is past NEW, and nothing else has changed. */
  ghost predicate Greeted(n: Node, i: nat, n': Node)
    requires i < |n.intfs|
  {
    var a := n.intfs[i].adj;
    n' == n.(intfs := n.intfs[i := n.intfs[i].(adj := a.(state := if a.state == UP then UP else INIT))])
  }

  /** A hello without TLVs is answered: the reply echoes the sender's MAC in TLV 6 and gives
      our address in TLV 132. */
  lemma GreetingHello(n: Node, i: nat, h: Hello)
    requires i < |n.intfs| && h.source != n.sid && h.tlvs == []
    ensures var (n', reply) := ReceiveHello(n, i, h);
      && Greeted(n, i, n')
      && reply == Some(Hello(n.intfs[i].mac, n.sid, [Tlv(6, 6, h.sourceMac), Tlv(132, 4, n.intfs[i].prefix)]))
  {
    KindOfHello(n, i, h);
  }

  /** The adjacency is UP with the sender of the hello, at metric 10 and the address in its
      second TLV, and nothing else has changed. */
  ghost predicate Adopted(n: Node, i: nat, h: Hello, m: Node)
    requires i < |n.intfs|
  {
    && |m.intfs| == |n.intfs|
    && m == n.(intfs := n.intfs[i := n.intfs[i].(adj := m.intfs[i].adj)])
    && var a := m.intfs[i].adj;
       && a.state == UP && a.metric == 10 && a.neighborSystemID == h.source && a.intfName == n.intfs[i].adj.intfName
       && (|h.tlvs| > 1 ==> forall k :: 0 <= k < 4 ==>
             a.neighborIP[k] == if k < |h.tlvs[1].valueTLV| then h.tlvs[1].valueTLV[k] else 0)
  }

  /** Every SRM flag of our LSP is set, the counter is one further, and the LSP stored for us
      carries it and advertises our interfaces as they are now; nothing else has changed. */
  ghost predicate Generated(n: Node, n': Node) {
    && n'.sid == n.sid && n'.sequenceNumber == AddUint32(n.sequenceNumber, 1) && |n'.intfs| == |n.intfs|
    && (forall j :: 0 <= j < |n.intfs| ==> n'.intfs[j] == n.intfs[j].(flood := n.intfs[j].flood[OwnKey(n) := true]))
    && OwnKey(n) in n'.db && n'.db == n.db[OwnKey(n) := n'.db[OwnKey(n)]]
    && var l := n'.db[OwnKey(n)];
       l == MakeLsp(n.sid, n'.sequenceNumber, l.core.tlvs) && Advertises(l.core.tlvs, n'.intfs)
  }

  lemma GenerateLocalIs(n: Node)
    ensures Generated(n, GenerateLocal(n))
  {
    var n' := GenerateLocal(n);
    SameAdvertSameTlvs(n.intfs, n'.intfs);
    OwnTlvsAdvertise(n'.intfs);
  }

  /** A hello from another system whose first TLV is our MAC brings the adjacency UP and
      makes us generate an LSP. */
  lemma ConfirmingHello(n: Node, i: nat, h: Hello)
    requires i < |n.intfs| && h.source != n.sid && h.tlvs != [] && h.tlvs[0].valueTLV == n.intfs[i].mac
    ensures var (n', reply) := ReceiveHello(n, i, h);
      reply == None && exists m :: Adopted(n, i, h, m) && Generated(m, n')
  {
    KindOfHello(n, i, h);
    var m := SetAdj(n, i, BroughtUp(n.intfs[i].adj, h));
    GenerateLocalIs(m);
    AdoptedIs(n, i, h);
    assert Generated(m, GenerateLocal(m));
  }

  lemma AdoptedIs(n: Node, i: nat, h: Hello)
    requires i < |n.intfs|
    ensures Adopted(n, i, h, SetAdj(n, i, BroughtUp(n.intfs[i].adj, h)))
  {
  }

  /** What the receipt of a hello must do, by its source, its TLVs and our MAC. */
  ghost predicate HelloEffect(n: Node, i: nat, h: Hello, n': Node, reply: Option<Hello>)
    requires i < |n.intfs|
  {
    var mac := n.intfs[i].mac;
    && (h.source == n.sid ==> n' == n && reply == None)
    && (h.source != n.sid && h.tlvs != [] && h.tlvs[0].valueTLV != mac ==> n' == n && reply == None)
    && (h.source != n.sid && h.tlvs == [] ==>
          && Greeted(n, i, n')
          && reply == Some(Hello(mac, n.sid, [Tlv(6, 6, h.sourceMac), Tlv(132, 4, n.intfs[i].prefix)])))
    && (h.source != n.sid && h.tlvs != [] && h.tlvs[0].valueTLV == mac ==>
          reply == None && exists m :: Adopted(n, i, h, m) && Generated(m, n'))
  }

  lemma HelloCases(n: Node, i: nat, h: Hello)
    requires i < |n.intfs|
    ensures HelloEffect(n, i, h, ReceiveHello(n, i, h).0, ReceiveHello(n, i, h).1)
  {
    if h.source == n.sid || (h.tlvs != [] && h.tlvs[0].valueTLV != n.intfs[i].mac) {
      IgnoredHello(n, i, h);
    } else if h.tlvs == [] {
      GreetingHello(n, i, h);
    } else {
      ConfirmingHello(n, i, h);
    }
  }

  /** So the adjacency comes UP, or the counter moves, only on a hello from another system
      whose first TLV is our MAC; and then both are so. */
  lemma OnlyOurMacBringsUp(n: Node, i: nat, h: Hello, n': Node, reply: Option<Hello>)
    requires i < |n.intfs| && HelloEffect(n, i, h, n', reply)
    ensures |n'.intfs| == |n.intfs|
    ensures var ours := h.source != n.sid && h.tlvs != [] && h.tlvs[0].valueTLV == n.intfs[i].mac;
      && (n'.sequenceNumber != n.sequenceNumber <==> ours)
      && (n.intfs[i].adj.state != UP ==> (n'.intfs[i].adj.state == UP <==> ours))
  {
    if h.source != n.sid && h.tlvs != [] && h.tlvs[0].valueTLV == n.intfs[i].mac {
      var m :| Adopted(n, i, h, m) && Generated(m, n');
    }
  }
}
