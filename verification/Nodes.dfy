/** One router as a value: its counter, its LSP database and its interfaces, and what
    each handler does to them. Class Router refines these functions on the heap. */
module Nodes {
  import opened Bytes
  import opened Wrappers
  import opened TlvList
  import opened Lsps
  import opened Hellos
  import opened Interfaces
  import SystemId

  /** flood holds the SRM flag of each LSP known on the interface. */
  datatype Intf = Intf(
    name: string, mac: Bytes6, prefix: Bytes4, routes: seq<Option<Route>>,
    adj: Adjacency, flood: map<nat, bool>)

  datatype Node = Node(sid: Bytes6, sequenceNumber: uint32, db: map<nat, Lsp>, intfs: seq<Intf>)

  function OwnKey(n: Node): nat {
    LspIDToKey(SystemId.LspId(n.sid))
  }

  // ----- The local LSP ----------------------------------------------------------------

  /** The neighbours getNeighborTLV lists: those with an UP adjacency, in order. */
  function UpIds(intfs: seq<Intf>): seq<Bytes6> {
    if intfs == [] then []
    else
      var i := intfs[|intfs| - 1];
      UpIds(intfs[..|intfs| - 1]) + (if i.adj.state == UP then [i.adj.neighborSystemID] else [])
  }

  /** The routes that are not nil, in order. */
  function Present(routes: seq<Option<Route>>): seq<Route> {
    if routes == [] then []
    else
      var r := routes[|routes| - 1];
      Present(routes[..|routes| - 1]) + (if r.Some? then [r.value] else [])
  }

  function AllRoutes(intfs: seq<Intf>): seq<Route> {
    if intfs == [] then []
    else AllRoutes(intfs[..|intfs| - 1]) + Present(intfs[|intfs| - 1].routes)
  }

  function OwnTlvs(intfs: seq<Intf>): seq<Tlv> {
    LocalTlvs(AllRoutes(intfs), UpIds(intfs))
  }

  const LSP_PDU_HEADER := PduHeader(DISCRIMINATOR, 0, 1, 0, L1_LSP, 1, 0, 0)

  /** buildEmptyLSP with the TLVs hung on it. */
  function MakeLsp(sid: Bytes6, seqNum: uint32, tlvs: seq<Tlv>): Lsp {
    var id := SystemId.LspId(sid);
    Lsp(LspIDToKey(id), id,
        LspCore(LSP_PDU_HEADER, LspHeader([0, 0], [0, 0], id, PutUint32(seqNum), [0, 0], 0), tlvs))
  }

  /** Sets the SRM flag of k on every interface, but clears it on interface except. */
  function FloodWhere(intfs: seq<Intf>, k: nat, except: int): (r: seq<Intf>)
    ensures |r| == |intfs|
    ensures forall j :: 0 <= j < |intfs| ==> r[j] == intfs[j].(flood := intfs[j].flood[k := j != except])
  {
    seq(|intfs|, j requires 0 <= j < |intfs| => intfs[j].(flood := intfs[j].flood[k := j != except]))
  }

  /** generateLocalLsp: bump the counter, store the new LSP, set SRM everywhere. */
  function GenerateLocal(n: Node): Node {
    var s := AddUint32(n.sequenceNumber, 1);
    var l := MakeLsp(n.sid, s, OwnTlvs(n.intfs));
    Node(n.sid, s, n.db[l.key := l], FloodWhere(n.intfs, l.key, -1))
  }

  // ----- LSP handlers -------------------------------------------------------------------

  predicate IsNewer(db: map<nat, Lsp>, l: Lsp) {
    l.key in db ==> SequenceNumber(db[l.key]) < SequenceNumber(l)
  }

  /** isisUpdateInput: store and flood an LSP that is new or strictly newer. */
  function ReceiveLsp(n: Node, i: nat, l: Lsp): Node {
    if IsNewer(n.db, l) then n.(db := n.db[l.key := l], intfs := FloodWhere(n.intfs, l.key, i)) else n
  }

  /** The condition under which isisUpdate sends k out of interface i. */
  predicate MaySend(n: Node, i: nat, k: nat) {
    i < |n.intfs| && k in n.intfs[i].flood && n.intfs[i].flood[k] && n.intfs[i].adj.state == UP && k in n.db
  }

  /** isisUpdate, one LSP: it is sent and its flag cleared. */
  function ClearSrm(n: Node, i: nat, k: nat): Node
    requires i < |n.intfs|
  {
    n.(intfs := n.intfs[i := n.intfs[i].(flood := n.intfs[i].flood[k := false])])
  }

  /** Several sends in a row out of interface i. */
  ghost function AfterSends(n: Node, i: nat, ks: seq<nat>): (n': Node)
    requires i < |n.intfs|
    ensures |n'.intfs| == |n.intfs| && n'.db == n.db && n'.intfs[i].mac == n.intfs[i].mac
  {
    if ks == [] then n else ClearSrm(AfterSends(n, i, ks[..|ks| - 1]), i, ks[|ks| - 1])
  }

  /** Each of them is allowed when its turn comes. */
  ghost predicate SendSequence(n: Node, i: nat, ks: seq<nat>)
    requires i < |n.intfs|
  {
    ks == [] || (SendSequence(n, i, ks[..|ks| - 1]) && MaySend(AfterSends(n, i, ks[..|ks| - 1]), i, ks[|ks| - 1]))
  }

  // ----- Hello handlers -------------------------------------------------------------------

  function PlainHello(n: Node, i: nat): Hello
    requires i < |n.intfs|
  {
    Hello(n.intfs[i].mac, n.sid, [])
  }

  function Reply(n: Node, i: nat, to: Bytes6): Hello
    requires i < |n.intfs|
  {
    Hello(n.intfs[i].mac, n.sid, ReplyTlvs(to, n.intfs[i].prefix))
  }

  function SetAdj(n: Node, i: nat, a: Adjacency): Node
    requires i < |n.intfs|
  {
    n.(intfs := n.intfs[i := n.intfs[i].(adj := a)])
  }

  /** copy into a 4-byte address. */
  function Address(bs: seq<byte>): Bytes4 {
    seq(4, i requires 0 <= i => if i < |bs| then bs[i] else 0)
  }

  datatype HelloKind = OwnHello | Greeting | Confirms | Other

  /** The four ways isisHelloRecv can take a hello. */
  function Classify(n: Node, i: nat, h: Hello): HelloKind
    requires i < |n.intfs|
  {
    if SystemId.Text(h.source) == SystemId.Text(n.sid) then OwnHello
    else if h.tlvs == [] then Greeting
    else if h.tlvs[0].valueTLV == n.intfs[i].mac then Confirms
    else Other
  }

  function Initialized(a: Adjacency): Adjacency {
    if a.state == UP then a else a.(state := INIT)
  }

  function BroughtUp(a: Adjacency, h: Hello): Adjacency {
    a.(state := UP, metric := 10, neighborSystemID := h.source,
       neighborIP := Address(if |h.tlvs| > 1 then h.tlvs[1].valueTLV else []))
  }

  /** isisHelloRecv. A confirming hello without a second TLV is a nil dereference in
      the source; Network shows that none is ever sent. */
  function ReceiveHello(n: Node, i: nat, h: Hello): (Node, Option<Hello>)
    requires i < |n.intfs|
  {
    var a := n.intfs[i].adj;
    match Classify(n, i, h)
    case OwnHello => (n, None)
    case Greeting => (SetAdj(n, i, Initialized(a)), Some(Reply(n, i, h.sourceMac)))
    case Confirms => (GenerateLocal(SetAdj(n, i, BroughtUp(a, h))), None)
    case Other => (n, None)
  }

  // ----- What a router feeds to SPF ---------------------------------------------------------

  function Adjs(n: Node): (adjs: seq<Adjacency>)
    ensures |adjs| == |n.intfs| && forall i :: 0 <= i < |adjs| ==> adjs[i] == n.intfs[i].adj
  {
    seq(|n.intfs|, i requires 0 <= i < |n.intfs| => n.intfs[i].adj)
  }

  /** lsps are the LSPs of the database, in any order. */
  ghost predicate Lists(db: map<nat, Lsp>, lsps: seq<Lsp>) {
    && (forall l :: l in lsps ==> l.key in db && db[l.key] == l)
    && (forall k :: k in db ==> db[k] in lsps)
  }
}
