/** A router as the source keeps it: interface objects and an AVL database changed in
    place. Each handler is proved to do what module Nodes says. */
module Routers {
  import opened Bytes
  import opened Wrappers
  import opened TlvList
  import opened Lsps
  import opened Hellos
  import opened Interfaces
  import opened Nodes
  import opened Wire
  import opened Adverts
  import opened NodeSteps
  import opened Avl
  import T = AvlTree
  import SystemId

  class Interface {
    const name: string
    const mac: Bytes6
    const prefix: Bytes4
    const routes: seq<Option<Route>>
    var adj: Adjacency
    var lspFloodStates: map<nat, bool>

    ghost function Value(): Intf
      reads this
    {
      Intf(name, mac, prefix, routes, adj, lspFloodStates)
    }

    constructor (name: string, mac: Bytes6, prefix: Bytes4, routes: seq<Option<Route>>)
      ensures Value() == Intf(name, mac, prefix, routes, Adjacency(NEW, [0, 0, 0, 0, 0, 0], 0, name, [0, 0, 0, 0]), map[])
    {
      this.name, this.mac, this.prefix, this.routes := name, mac, prefix, routes;
      adj := Adjacency(NEW, [0, 0, 0, 0, 0, 0], 0, name, [0, 0, 0, 0]);
      lspFloodStates := map[];
    }
  }

  ghost function Values(xs: seq<Interface>): (vs: seq<Intf>)
    reads xs
    ensures |vs| == |xs| && forall i :: 0 <= i < |xs| ==> vs[i] == xs[i].Value()
  {
    if xs == [] then [] else Values(xs[..|xs| - 1]) + [xs[|xs| - 1].Value()]
  }

  /** Interface objects are distinct and so are their names, which floodNewLsp compares. */
  ghost predicate DistinctInterfaces(xs: seq<Interface>) {
    forall i, j :: 0 <= i < j < |xs| ==> xs[i] != xs[j] && xs[i].name != xs[j].name
  }

  // ----- Flooding flags -------------------------------------------------------------------

  /** floodNewLsp: SRM off on the interface it came in on, on everywhere else. */
  method FloodNewLsp(interfaces: seq<Interface>, receiveIntf: Interface, ghost r: nat, key: nat)
    requires DistinctInterfaces(interfaces) && r < |interfaces| && interfaces[r] == receiveIntf
    modifies interfaces
    ensures Values(interfaces) == FloodWhere(old(Values(interfaces)), key, r)
  {
    for i := 0 to |interfaces|
      invariant forall j :: 0 <= j < |interfaces| ==>
        interfaces[j].Value() == if j < i then old(interfaces[j].Value()).(flood := old(interfaces[j].lspFloodStates)[key := j != r])
                                 else old(interfaces[j].Value())
    {
      var intf := interfaces[i];
      if receiveIntf.name == intf.name {
        intf.lspFloodStates := intf.lspFloodStates[key := false];
      } else {
        intf.lspFloodStates := intf.lspFloodStates[key := true];
      }
    }
  }

  /** The last loop of generateLocalLsp: SRM on everywhere. */
  method FloodEverywhere(interfaces: seq<Interface>, key: nat)
    requires DistinctInterfaces(interfaces)
    modifies interfaces
    ensures Values(interfaces) == FloodWhere(old(Values(interfaces)), key, -1)
  {
    for i := 0 to |interfaces|
      invariant forall j :: 0 <= j < |interfaces| ==>
        interfaces[j].Value() == if j < i then old(interfaces[j].Value()).(flood := old(interfaces[j].lspFloodStates)[key := true])
                                 else old(interfaces[j].Value())
    {
      interfaces[i].lspFloodStates := interfaces[i].lspFloodStates[key := true];
    }
  }

  // ----- Building the local LSP ---------------------------------------------------------------

  /** Appends one neighbour; the length byte may wrap. */
  function AppendNeighbor(t: Tlv, id: Bytes6): Tlv {
    Tlv(t.typeTLV, (t.lengthTLV + 11) % 256, t.valueTLV + [0, 0, 0, 10] + id + [0])
  }

  lemma AppendNeighborIs(ids: seq<Bytes6>, id: Bytes6)
    ensures AppendNeighbor(NeighborTlv(ids), id) == NeighborTlv(ids + [id])
  {
    NeighborBlocksSnoc(ids, id);
    LengthStep(1 + 11 * |ids|, 11);
    assert [0] + Blocks(NeighborEntries(ids)) + [0, 0, 0, 10] + id + [0] == [0] + Blocks(NeighborEntries(ids + [id]));
  }

  lemma NeighborBlocksSnoc(ids: seq<Bytes6>, id: Bytes6)
    ensures Blocks(NeighborEntries(ids + [id])) == Blocks(NeighborEntries(ids)) + [0, 0, 0, 10] + id + [0]
  {
    var es := NeighborEntries(ids + [id]);
    assert es[..|ids|] == NeighborEntries(ids);
  }

  method GetNeighborTLV(interfaces: seq<Interface>) returns (t: Tlv)
    ensures t == NeighborTlv(UpIds(Values(interfaces))) && ListsNeighbors(t, Values(interfaces))
  {
    t := Tlv(NEIGHBORS_TLV, 1, [0]);
    assert t == NeighborTlv([]);
    for i := 0 to |interfaces|
      invariant t == NeighborTlv(UpIds(Values(interfaces[..i])))
    {
      ghost var ids := UpIds(Values(interfaces[..i]));
      ValuesSnoc(interfaces, i);
      UpIdsSnoc(Values(interfaces[..i]), interfaces[i].Value());
      if interfaces[i].adj.state == UP {
        AppendNeighborIs(ids, interfaces[i].adj.neighborSystemID);
        t := AppendNeighbor(t, interfaces[i].adj.neighborSystemID);
      } else {
        assert ids + [] == ids;
      }
    }
    assert interfaces[..|interfaces|] == interfaces;
    NeighborsListed(Values(interfaces));
  }

  lemma ValuesSnoc(interfaces: seq<Interface>, i: nat)
    requires i < |interfaces|
    ensures Values(interfaces[..i + 1]) == Values(interfaces[..i]) + [interfaces[i].Value()]
  {
    assert interfaces[..i + 1][..i] == interfaces[..i];
  }

  lemma UpIdsSnoc(vs: seq<Intf>, v: Intf)
    ensures UpIds(vs + [v]) == UpIds(vs) + (if v.adj.state == UP then [v.adj.neighborSystemID] else [])
  {
    assert (vs + [v])[..|vs|] == vs;
  }

  /** Appends one prefix. */
  function AppendRoute(t: Tlv, r: Route): Tlv {
    Tlv(t.typeTLV, (t.lengthTLV + 12) % 256, t.valueTLV + r.ip + r.mask + [0, 0, 0, 10])
  }

  lemma AppendRouteIs(rs: seq<Route>, r: Route)
    ensures AppendRoute(ReachTlv(rs), r) == ReachTlv(rs + [r])
  {
    RouteBlocksSnoc(rs, r);
    LengthStep(12 * |rs|, 12);
  }

  lemma LengthStep(n: nat, step: nat)
    ensures (n % 256 + step) % 256 == (n + step) % 256
  {
  }

  lemma RouteBlocksSnoc(rs: seq<Route>, r: Route)
    ensures Blocks(RouteEntries(rs + [r])) == Blocks(RouteEntries(rs)) + r.ip + r.mask + [0, 0, 0, 10]
  {
    var es := RouteEntries(rs + [r]);
    assert es[..|rs|] == RouteEntries(rs);
  }

  /** The inner loop: the routes of one interface, skipping nil. */
  method AppendRoutes(t: Tlv, routes: seq<Option<Route>>, ghost rs: seq<Route>) returns (t': Tlv)
    requires t == ReachTlv(rs)
    ensures t' == ReachTlv(rs + Present(routes))
  {
    t' := t;
    assert rs + Present(routes[..0]) == rs;
    for j := 0 to |routes|
      invariant t' == ReachTlv(rs + Present(routes[..j]))
    {
      PresentSnoc(routes, j);
      if routes[j].Some? {
        AppendRouteIs(rs + Present(routes[..j]), routes[j].value);
        assert rs + Present(routes[..j]) + [routes[j].value] == rs + Present(routes[..j + 1]);
        t' := AppendRoute(t', routes[j].value);
      } else {
        assert Present(routes[..j + 1]) == Present(routes[..j]);
      }
    }
    assert routes[..|routes|] == routes;
  }

  method GetIPReachTLV(interfaces: seq<Interface>) returns (t: Tlv)
    ensures t == ReachTlv(AllRoutes(Values(interfaces))) && ListsRoutes(t, Values(interfaces))
  {
    t := Tlv(IP_INTERNAL_REACH_TLV, 0, []);
    assert t == ReachTlv([]);
    for i := 0 to |interfaces|
      invariant t == ReachTlv(AllRoutes(Values(interfaces[..i])))
    {
      ValuesSnoc(interfaces, i);
      AllRoutesSnoc(Values(interfaces[..i]), interfaces[i].Value());
      t := AppendRoutes(t, interfaces[i].routes, AllRoutes(Values(interfaces[..i])));
    }
    assert interfaces[..|interfaces|] == interfaces;
    RoutesListed(Values(interfaces));
  }

  lemma AllRoutesSnoc(vs: seq<Intf>, v: Intf)
    ensures AllRoutes(vs + [v]) == AllRoutes(vs) + Present(v.routes)
  {
    assert (vs + [v])[..|vs|] == vs;
  }

  lemma PresentSnoc(routes: seq<Option<Route>>, j: nat)
    requires j < |routes|
    ensures Present(routes[..j + 1]) == Present(routes[..j]) + (if routes[j].Some? then [routes[j].value] else [])
  {
    assert routes[..j + 1][..j] == routes[..j];
  }

  lemma SendsSnoc(n: Node, i: nat, ks: seq<nat>, k: nat)
    requires i < |n.intfs| && SendSequence(n, i, ks) && MaySend(AfterSends(n, i, ks), i, k)
    ensures SendSequence(n, i, ks + [k]) && AfterSends(n, i, ks + [k]) == ClearSrm(AfterSends(n, i, ks), i, k)
  {
    assert (ks + [k])[..|ks|] == ks;
  }

  /** Only these keys may still have to be sent. */
  ghost predicate OnlyPending(n: Node, i: nat, keys: set<nat>) {
    i < |n.intfs| && keys <= n.intfs[i].flood.Keys && forall k :: MaySend(n, i, k) ==> k in keys
  }

  lemma PendingShrinks(n: Node, i: nat, keys: set<nat>, k: nat)
    requires OnlyPending(n, i, keys) && k in keys
    ensures MaySend(n, i, k) ==> OnlyPending(ClearSrm(n, i, k), i, keys - {k})
    ensures !MaySend(n, i, k) ==> OnlyPending(n, i, keys - {k})
  {
    var n' := ClearSrm(n, i, k);
    assert forall j :: MaySend(n', i, j) ==> j != k && MaySend(n, i, j);
  }

  ghost predicate CarryInOrder(db: map<nat, Lsp>, mac: Bytes6, ks: seq<nat>, frames: seq<seq<byte>>) {
    && |frames| == |ks|
    && forall j :: 0 <= j < |ks| ==> ks[j] in db && frames[j] == FrameOf(mac, LspMsg(db[ks[j]]))
                                     && IsLspFrame(frames[j], mac, db[ks[j]])
  }

  lemma CarrySnoc(db: map<nat, Lsp>, mac: Bytes6, ks: seq<nat>, frames: seq<seq<byte>>, k: nat)
    requires CarryInOrder(db, mac, ks, frames) && k in db
    ensures CarryInOrder(db, mac, ks + [k], frames + [FrameOf(mac, LspMsg(db[k]))])
  {
    LspFrameIs(mac, db[k]);
  }

  /** A pass over the flood states of interface i of n0 so far: ks have been sent, frames
      carry them, n is the router now, and only keys are still to be looked at. */
  ghost predicate Scanned(n0: Node, i: nat, keys: set<nat>, ks: seq<nat>, frames: seq<seq<byte>>, n: Node) {
    && i < |n0.intfs| && SendSequence(n0, i, ks) && n == AfterSends(n0, i, ks) && OnlyPending(n, i, keys)
    && CarryInOrder(n0.db, n0.intfs[i].mac, ks, frames)
  }

  lemma ScanSent(n0: Node, i: nat, keys: set<nat>, ks: seq<nat>, frames: seq<seq<byte>>, n: Node, k: nat)
    requires Scanned(n0, i, keys, ks, frames, n) && k in keys && MaySend(n, i, k)
    ensures k in n.db
    ensures Scanned(n0, i, keys - {k}, ks + [k], frames + [FrameOf(n0.intfs[i].mac, LspMsg(n.db[k]))], ClearSrm(n, i, k))
  {
    PendingShrinks(n, i, keys, k);
    SendsSnoc(n0, i, ks, k);
    CarrySnoc(n0.db, n0.intfs[i].mac, ks, frames, k);
  }

  lemma ScanSkipped(n0: Node, i: nat, keys: set<nat>, ks: seq<nat>, frames: seq<seq<byte>>, n: Node, k: nat)
    requires Scanned(n0, i, keys, ks, frames, n) && k in keys && !MaySend(n, i, k)
    ensures Scanned(n0, i, keys - {k}, ks, frames, n)
  {
    PendingShrinks(n, i, keys, k);
  }

  // ----- The router --------------------------------------------------------------------------

  class Router {
    const sid: Bytes6
    const interfaces: seq<Interface>
    var sequenceNumber: uint32
    var root: AvlNode?<Lsp>

    ghost predicate Valid()
      reads this, root, ReprOf(root)
    {
      DistinctInterfaces(interfaces) && IsTree(root) && T.IsAvl(TreeOf(root))
    }

    /** The router as a value; the database is the map the tree stands for. */
    ghost function Value(): Node
      reads this, root, interfaces
    {
      Node(sid, sequenceNumber, T.ToMap(TreeOf(root)), Values(interfaces))
    }

    constructor (sid: Bytes6, interfaces: seq<Interface>)
      requires DistinctInterfaces(interfaces)
      ensures Valid() && this.sid == sid && this.interfaces == interfaces
      ensures Value() == Node(sid, 0, map[], Values(interfaces))
    {
      this.sid, this.interfaces, sequenceNumber, root := sid, interfaces, 0, null;
    }

    /** `UpdateDB.Root = AvlInsert(UpdateDB.Root, l.Key, l, overwrite)`. */
    method Store(l: Lsp, overwrite: bool)
      requires Valid() && (overwrite || l.key !in Value().db)
      modifies this, ReprOf(root)
      ensures Valid() && sequenceNumber == old(sequenceNumber)
      ensures Value() == old(Value()).(db := old(Value()).db[l.key := l])
    {
      T.InsertRefinesMap(TreeOf(root), l.key, l, overwrite);
      root := AvlInsert(root, l.key, l, overwrite);
    }

    method Lookup(key: nat) returns (l: Option<Lsp>)
      requires Valid()
      ensures l == if key in Value().db then Some(Value().db[key]) else None
    {
      T.SearchIsLookup(TreeOf(root), key);
      l := AvlSearch(root, key);
    }

    /** The call of floodNewLsp, seen from the router: the database stays. */
    method Flood(i: nat, key: nat)
      requires Valid() && i < |interfaces|
      modifies interfaces
      ensures Valid() && Value() == old(Value()).(intfs := FloodWhere(old(Value()).intfs, key, i))
    {
      FloodNewLsp(interfaces, interfaces[i], i, key);
      assert IsTree(root);
    }

    method FloodAll(key: nat)
      requires Valid()
      modifies interfaces
      ensures Valid() && Value() == old(Value()).(intfs := FloodWhere(old(Value()).intfs, key, -1))
    {
      FloodEverywhere(interfaces, key);
      assert IsTree(root);
    }

    /** isisUpdateInput on one received LSP; says whether it triggers SPF. */
    method UpdateInput(i: nat, l: Lsp) returns (spf: bool)
      requires Valid() && i < |interfaces|
      modifies this, ReprOf(root), interfaces
      ensures Valid() && Value() == ReceiveLsp(old(Value()), i, l)
      ensures spf <==> (l.key in old(Value()).db ==> SequenceNumber(old(Value()).db[l.key]) < SequenceNumber(l))
      ensures !spf ==> Value() == old(Value())
    {
      spf := false;
      var tmp := Lookup(l.key);
      if tmp.None? {
        Store(l, false);
        spf := true;
        Flood(i, l.key);
      } else if SequenceNumber(tmp.value) < SequenceNumber(l) {
        Store(l, true);
        spf := true;
        Flood(i, l.key);
      }
    }

    method ClearFlag(i: nat, k: nat)
      requires Valid() && i < |interfaces|
      modifies interfaces[i]
      ensures Valid() && Value() == ClearSrm(old(Value()), i, k)
      ensures interfaces[i].adj == old(interfaces[i].adj)
    {
      interfaces[i].lspFloodStates := interfaces[i].lspFloodStates[k := false];
      assert IsTree(root);
      assert Values(interfaces) == old(Values(interfaces))[i := interfaces[i].Value()];
    }

    /** The body of isisUpdate for one flood state: nothing, or a frame and a cleared flag. */
    method SendOne(i: nat, k: nat) returns (frame: Option<seq<byte>>)
      requires Valid() && i < |interfaces| && k in interfaces[i].lspFloodStates
      modifies interfaces[i]
      ensures Valid()
      ensures if MaySend(old(Value()), i, k)
        then Value() == ClearSrm(old(Value()), i, k) && frame == Some(FrameOf(interfaces[i].mac, LspMsg(Value().db[k])))
        else Value() == old(Value()) && frame == None
      ensures frame.Some? ==> IsLspFrame(frame.value, interfaces[i].mac, Value().db[k])
    {
      frame := None;
      if interfaces[i].lspFloodStates[k] && interfaces[i].adj.state == UP {
        var tmp := Lookup(k);
        if tmp.Some? {
          LspFrameIs(interfaces[i].mac, tmp.value);
          frame := Some(BuildEthernetFrame(L1_MULTICAST, interfaces[i].mac, SerializeLsp(tmp.value.core)));
          ClearFlag(i, k);
        }
      }
    }

    /** One pass of isisUpdate over an interface's flood states, in any order: a sequence
        of allowed sends that leaves nothing to send, and the frames it puts on the wire. */
    method UpdateScan(i: nat) returns (frames: seq<seq<byte>>, ghost ks: seq<nat>)
      requires Valid() && i < |interfaces|
      modifies interfaces[i]
      ensures Valid() && SendSequence(old(Value()), i, ks) && Value() == AfterSends(old(Value()), i, ks)
      ensures forall k :: !MaySend(Value(), i, k)
      ensures CarryInOrder(old(Value()).db, interfaces[i].mac, ks, frames)
    {
      frames, ks := [], [];
      ghost var n0 := Value();
      var keys := interfaces[i].lspFloodStates.Keys;
      while keys != {}
        invariant Valid()
        invariant Scanned(n0, i, keys, ks, frames, Value())
        decreases |keys|
      {
        var k :| k in keys;
        ghost var n := Value();
        var frame := SendOne(i, k);
        if frame.Some? {
          ScanSent(n0, i, keys, ks, frames, n, k);
          frames, ks := frames + [frame.value], ks + [k];
        } else {
          ScanSkipped(n0, i, keys, ks, frames, n, k);
        }
        keys := keys - {k};
      }
    }

    method Bump()
      requires Valid()
      modifies this`sequenceNumber
      ensures Valid() && Value() == old(Value()).(sequenceNumber := AddUint32(old(sequenceNumber), 1))
    {
      sequenceNumber := AddUint32(sequenceNumber, 1);
      assert IsTree(root);
    }

    /** The LSP generateLocalLsp builds from the interfaces as they are. */
    method BuildLocalLsp() returns (l: Lsp)
      ensures l == MakeLsp(sid, sequenceNumber, OwnTlvs(Values(interfaces)))
    {
      var reachTLV := GetIPReachTLV(interfaces);
      var neighborTLV := GetNeighborTLV(interfaces);
      l := MakeLsp(sid, sequenceNumber, [reachTLV, neighborTLV]);
    }

    /** The body of generateLocalLsp. */
    method RebuildLocalLsp()
      requires Valid()
      modifies this, ReprOf(root), interfaces
      ensures Valid() && Value() == GenerateLocal(old(Value()))
    {
      Bump();
      var l := BuildLocalLsp();
      Store(l, true);
      FloodAll(l.key);
    }

    /** generateLocalLsp. */
    method GenerateLocalLsp()
      requires Valid()
      modifies this, ReprOf(root), interfaces
      ensures Valid() && Value() == GenerateLocal(old(Value())) && Generated(old(Value()), Value())
    {
      GenerateLocalIs(Value());
      RebuildLocalLsp();
    }

    /** isisHelloSend: while the adjacency is not UP, a frame that the far end receives as
        our greeting. */
    method HelloSend(i: nat) returns (frame: Option<seq<byte>>)
      requires Valid() && i < |interfaces|
      ensures frame.Some? <==> Value().intfs[i].adj.state != UP
      ensures frame.Some? ==> Decodable(frame.value)
                              && ReceiveFrame(frame.value) == Some(HelloMsg(PlainHello(Value(), i)))
      ensures frame.Some? ==> IsHelloFrame(frame.value, interfaces[i].mac, sid, [])
    {
      frame := None;
      if interfaces[i].adj.state != UP {
        var hello := Hello(interfaces[i].mac, sid, []);
        WireRoundTrip(interfaces[i].mac, HelloMsg(hello));
        HelloFrameIs(interfaces[i].mac, hello);
        frame := Some(BuildEthernetFrame(L1_MULTICAST, interfaces[i].mac, SerializeHello(hello)));
      }
    }

    method SetAdjacency(i: nat, a: Adjacency)
      requires Valid() && i < |interfaces|
      modifies interfaces[i]
      ensures Valid() && Value() == SetAdj(old(Value()), i, a)
    {
      interfaces[i].adj := a;
      assert Values(interfaces) == old(Values(interfaces))[i := interfaces[i].Value()];
    }

    /** A hello without TLVs: INIT unless already UP, and a reply that echoes the sender. */
    method GreetedBack(i: nat, mac: Bytes6) returns (reply: Hello)
      requires Valid() && i < |interfaces|
      modifies interfaces[i]
      ensures Valid() && Value() == SetAdj(old(Value()), i, Initialized(old(interfaces[i].adj)))
      ensures reply == Reply(old(Value()), i, mac)
    {
      var intf := interfaces[i];
      reply := Hello(intf.mac, sid, ReplyTlvs(mac, intf.prefix));
      if intf.adj.state != UP {
        SetAdjacency(i, intf.adj.(state := INIT));
      } else {
        assert SetAdj(Value(), i, intf.adj) == Value();
      }
    }

    /** A hello that echoes our MAC: UP, and a new local LSP. */
    method Confirmed(i: nat, h: Hello)
      requires Valid() && i < |interfaces| && |h.tlvs| >= 2
      modifies this, ReprOf(root), interfaces
      ensures Valid() && Value() == GenerateLocal(SetAdj(old(Value()), i, BroughtUp(old(interfaces[i].adj), h)))
    {
      SetAdjacency(i, interfaces[i].adj.(state := UP, metric := 10, neighborSystemID := h.source,
                                         neighborIP := Address(h.tlvs[1].valueTLV)));
      GenerateLocalLsp();
    }

    /** Whether the hello comes from another system and its first TLV is our MAC. */
    ghost predicate IsForUs(i: nat, h: Hello)
      requires i < |interfaces|
    {
      h.source != sid && h.tlvs != [] && h.tlvs[0].valueTLV == interfaces[i].mac
    }

    /** The body of isisHelloRecv. The second TLV of a confirmation is read unchecked. */
    method TakeHello(i: nat, h: Hello) returns (reply: Option<Hello>)
      requires Valid() && i < |interfaces| && (IsForUs(i, h) ==> |h.tlvs| >= 2)
      modifies this, ReprOf(root), interfaces
      ensures Valid() && (Value(), reply) == ReceiveHello(old(Value()), i, h)
    {
      var source := SystemId.SystemIDToString(h.source);
      var own := SystemId.SystemIDToString(sid);
      HelloResult(Value(), i, h);
      reply := None;
      if source == own {
        return;
      }
      if h.tlvs == [] {
        var hello := GreetedBack(i, h.sourceMac);
        reply := Some(hello);
      } else if h.tlvs[0].valueTLV == interfaces[i].mac {
        Confirmed(i, h);
      }
    }

    /** isisHelloRecv on one hello. */
    method HelloReceive(i: nat, h: Hello) returns (reply: Option<Hello>)
      requires Valid() && i < |interfaces| && (IsForUs(i, h) ==> |h.tlvs| >= 2)
      modifies this, ReprOf(root), interfaces
      ensures Valid() && (Value(), reply) == ReceiveHello(old(Value()), i, h)
      ensures HelloEffect(old(Value()), i, h, Value(), reply)
    {
      HelloCases(Value(), i, h);
      reply := TakeHello(i, h);
    }

    /** recvPdus and the two receiving goroutines, for one frame. */
    method ReceivePdu(i: nat, raw: seq<byte>) returns (reply: Option<seq<byte>>)
      requires Valid() && i < |interfaces| && Decodable(raw)
      requires raw[14] == 0x83 && raw[18] == 0x0F && IsForUs(i, DeserializeHello(raw)) ==>
                 |DeserializeHello(raw).tlvs| >= 2
      modifies this, ReprOf(root), interfaces
      ensures Valid() && Value() == Arrive(old(Value()), i, raw).0
      ensures reply == AsFrame(interfaces[i].mac, Arrive(old(Value()), i, raw).1)
      ensures raw[14] != 0x83 ==> Value() == old(Value()) && reply == None
      ensures raw[18] != 0x0F && raw[18] != 0x12 ==> Value() == old(Value()) && reply == None
      ensures raw[18] == 0x0F && raw[..6] != [0x01, 0x80, 0xc2, 0x00, 0x00, 0x14] ==>
                Value() == old(Value()) && reply == None
      ensures raw[14] == 0x83 && raw[18] == 0x12 ==>
                Value() == ReceiveLsp(old(Value()), i, DeserializeLsp(raw)) && reply == None
      ensures raw[14] == 0x83 && raw[18] == 0x0F && raw[..6] == [0x01, 0x80, 0xc2, 0x00, 0x00, 0x14] ==>
                exists r :: HelloEffect(old(Value()), i, DeserializeHello(raw), Value(), r)
                            && reply == AsFrame(interfaces[i].mac, r)
      ensures |raw| == 42 && raw[14] == 0x83 && raw[18] == 0x0F && raw[..6] == [0x01, 0x80, 0xc2, 0x00, 0x00, 0x14]
              && raw[23..29] != sid ==>
                reply.Some? && IsHelloFrame(reply.value, interfaces[i].mac, sid, ReplyBytes(raw[6..12], interfaces[i].prefix))
    {
      reply := None;
      ArriveSorts(Value(), i, raw);
      if raw[14] != DISCRIMINATOR {
        return;
      }
      if raw[18] == L1_LAN_IIH {
        if raw[..6] == L1_MULTICAST {
          var hello := HelloReceive(i, DeserializeHello(raw));
          reply := AsFrame(interfaces[i].mac, hello);
          ReplyTlvsAre(raw[6..12], interfaces[i].prefix);
        }
      } else if raw[18] == L1_LSP {
        var spf := UpdateInput(i, DeserializeLsp(raw));
      }
    }
  }
}
