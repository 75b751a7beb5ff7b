/** Messages on the wire: the frame a message travels in, and what the receiving side
    makes of a frame. */
module Wire {
  import opened Bytes
  import opened Wrappers
  import opened TlvList
  import opened Lsps
  import opened Hellos
  import opened Nodes

  datatype Msg = HelloMsg(hello: Hello) | LspMsg(lsp: Lsp)

  /** The frame that carries a message sent from an interface with this MAC. */
  function FrameOf(mac: Bytes6, m: Msg): seq<byte> {
    match m
    case HelloMsg(h) => BuildEthernetFrame(L1_MULTICAST, mac, SerializeHello(h))
    case LspMsg(l) => BuildEthernetFrame(L1_MULTICAST, mac, SerializeLsp(l.core))
  }

  /** recvPdus and the parsers index the frame unchecked; this is what they rely on. */
  predicate Decodable(raw: seq<byte>) {
    && |raw| >= 19
    && (raw[14] == DISCRIMINATOR && raw[18] == L1_LAN_IIH ==> WellFormed(raw, HELLO_TLV_OFFSET))
    && (raw[14] == DISCRIMINATOR && raw[18] == L1_LSP ==> WellFormed(raw, TLV_OFFSET))
  }

  /** recvPdus sorts frames by PDU type; recvHello also checks the multicast address. */
  function ReceiveFrame(raw: seq<byte>): Option<Msg>
    requires Decodable(raw)
  {
    if raw[14] != DISCRIMINATOR then None
    else if raw[18] == L1_LAN_IIH then
      if raw[..6] == L1_MULTICAST then Some(HelloMsg(DeserializeHello(raw))) else None
    else if raw[18] == L1_LSP then Some(LspMsg(DeserializeLsp(raw)))
    else None
  }

  /** The frame is received as the message sent. */
  ghost predicate Survives(mac: Bytes6, m: Msg) {
    Decodable(FrameOf(mac, m)) && ReceiveFrame(FrameOf(mac, m)) == Some(m)
  }

  /** What makes a message survive the wire. */
  predicate Sendable(mac: Bytes6, m: Msg) {
    match m
    case HelloMsg(h) => Matches(h.tlvs) && h.sourceMac == mac
    case LspMsg(l) => WellKeyed(l) && Matches(l.core.tlvs) && l.core.header == LSP_PDU_HEADER
  }

  lemma LspFrameType(mac: Bytes6, l: Lsp)
    requires l.core.header == LSP_PDU_HEADER
    ensures var raw := FrameOf(mac, LspMsg(l));
      |raw| >= TLV_OFFSET && raw[14] == DISCRIMINATOR && raw[18] == L1_LSP
  {
    var raw := FrameOf(mac, LspMsg(l));
    var upTo := L1_MULTICAST + mac + [0x08, 0x00] + PduHeaderBytes(LSP_PDU_HEADER);
    assert raw == upTo + (LspHeaderBytes(l.core.lspHeader) + Encode(l.core.tlvs));
    assert upTo[14] == DISCRIMINATOR && upTo[18] == L1_LSP;
  }

  lemma WireRoundTrip(mac: Bytes6, m: Msg)
    requires Sendable(mac, m)
    ensures Survives(mac, m)
  {
    match m {
      case HelloMsg(h) => HelloRoundTrip(h);
      case LspMsg(l) =>
        FrameRoundTrip(L1_MULTICAST, mac, l);
        LspFrameType(mac, l);
    }
  }

  /** Two messages that survive the wire never share a frame. */
  lemma FramesDiffer(mac: Bytes6, m: Msg, n: Msg)
    requires Sendable(mac, m) && Sendable(mac, n) && FrameOf(mac, m) == FrameOf(mac, n)
    ensures m == n
  {
    WireRoundTrip(mac, m);
    WireRoundTrip(mac, n);
  }

  /** The LSP generateLocalLsp builds is received as it was sent exactly when it has at
      most 21 routes and 23 adjacencies: beyond that a length byte has wrapped, and the
      receiver walks off the buffer or reads other TLVs. */
  lemma LocalLspSurvivesIff(mac: Bytes6, sid: Bytes6, q: uint32, routes: seq<Route>, ids: seq<Bytes6>)
    ensures Survives(mac, LspMsg(MakeLsp(sid, q, LocalTlvs(routes, ids)))) <==> |routes| <= 21 && |ids| <= 23
  {
    var l := MakeLsp(sid, q, LocalTlvs(routes, ids));
    var raw := FrameOf(mac, LspMsg(l));
    LocalTlvsMatchIff(routes, ids);
    LspFrameType(mac, l);
    if Matches(l.core.tlvs) {
      WireRoundTrip(mac, LspMsg(l));
    } else if Survives(mac, LspMsg(l)) {
      EncodeOfDecode(raw, TLV_OFFSET);
      assert false;
    }
  }

  // ----- The bytes ---------------------------------------------------------------------------

  /** To the IS-IS multicast address, from mac, the serialized LSP. */
  predicate IsLspFrame(raw: seq<byte>, mac: Bytes6, l: Lsp) {
    && |raw| >= 14 && raw[..6] == [0x01, 0x80, 0xc2, 0x00, 0x00, 0x14] && raw[6..12] == mac
    && raw[12..14] == [0x08, 0x00] && raw[14..] == SerializeLsp(l.core)
  }

  lemma LspFrameIs(mac: Bytes6, l: Lsp)
    ensures IsLspFrame(FrameOf(mac, LspMsg(l)), mac, l)
  {
    FrameLayout(L1_MULTICAST, mac, SerializeLsp(l.core));
  }

  /** To the IS-IS multicast address, from mac, a hello of sid with these TLV bytes: PDU
      type 15, level 1, 60 seconds, priority 64. */
  predicate IsHelloFrame(raw: seq<byte>, mac: Bytes6, sid: Bytes6, tlvs: seq<byte>) {
    raw == [0x01, 0x80, 0xc2, 0x00, 0x00, 0x14] + mac + [0x08, 0x00]
           + [0x83, 0x00, 0x01, 0x00, 0x0F, 0x01, 0x00, 0x00]
           + ([0x01] + sid + [0x3c, 0x00] + [0x00, 0x00] + [0x00, 0x40] + [0x00, 0x00, 0x00, 0x00, 0x00, 0x00, 0x00])
           + tlvs
  }

  /** The TLVs of a reply: the MAC it answers, and the sender's address. */
  function ReplyBytes(to: Bytes6, ip: Bytes4): seq<byte> {
    [6, 6] + to + [132, 4] + ip
  }

  lemma HelloFrameIs(mac: Bytes6, h: Hello)
    ensures IsHelloFrame(FrameOf(mac, HelloMsg(h)), mac, h.source, Encode(h.tlvs))
  {
  }

  lemma ReplyTlvsAre(to: Bytes6, ip: Bytes4)
    ensures Encode(ReplyTlvs(to, ip)) == ReplyBytes(to, ip)
  {
    var ts := ReplyTlvs(to, ip);
    assert ts == [ts[0]] + ([ts[1]] + []);
    EncodeCons(ts[0], [ts[1]] + []);
    EncodeCons(ts[1], []);
  }

  /** The bytes of a local LSP: PDU type 18, the system ID with pseudonode and fragment 0,
      the sequence number, and zeros besides. */
  lemma LocalLspBytes(sid: Bytes6, q: uint32, tlvs: seq<Tlv>)
    ensures SerializeLsp(MakeLsp(sid, q, tlvs).core) ==
            [0x83, 0x00, 0x01, 0x00, 0x12, 0x01, 0x00, 0x00]
            + ([0, 0] + [0, 0] + (sid + [0, 0]) + PutUint32(q) + [0, 0] + [0]) + Encode(tlvs)
  {
  }

  // ----- The receiving side of a router ------------------------------------------------------

  /** recvPdus hands the frame to isisHelloRecv or isisUpdateInput, or drops it. */
  function Arrive(n: Node, i: nat, raw: seq<byte>): (Node, Option<Hello>)
    requires i < |n.intfs| && Decodable(raw)
  {
    match ReceiveFrame(raw)
    case None => (n, None)
    case Some(LspMsg(l)) => (ReceiveLsp(n, i, l), None)
    case Some(HelloMsg(h)) => ReceiveHello(n, i, h)
  }

  /** sendHello: the frame of the reply, if there is one. */
  function AsFrame(mac: Bytes6, reply: Option<Hello>): (frame: Option<seq<byte>>)
    ensures frame.Some? <==> reply.Some?
    ensures frame.Some? ==> IsHelloFrame(frame.value, mac, reply.value.source, Encode(reply.value.tlvs))
  {
    if reply.Some? then Some(FrameOf(mac, HelloMsg(reply.value))) else None
  }

  /** Not an IS-IS hello to the multicast address, nor an IS-IS LSP. */
  predicate IsIgnored(raw: seq<byte>)
    requires |raw| >= 19
  {
    || raw[14] != 0x83
    || (raw[18] != 0x0F && raw[18] != 0x12)
    || (raw[18] == 0x0F && raw[..6] != [0x01, 0x80, 0xc2, 0x00, 0x00, 0x14])
  }

  /** Which frames are dropped, and where the others go. */
  lemma ArriveSorts(n: Node, i: nat, raw: seq<byte>)
    requires i < |n.intfs| && Decodable(raw)
    ensures IsIgnored(raw) ==> ReceiveFrame(raw) == None && Arrive(n, i, raw) == (n, None)
    ensures raw[14] == 0x83 && raw[18] == 0x12 ==> Arrive(n, i, raw) == (ReceiveLsp(n, i, DeserializeLsp(raw)), None)
    ensures raw[14] == 0x83 && raw[18] == 0x0F && !IsIgnored(raw) ==>
              Arrive(n, i, raw) == ReceiveHello(n, i, DeserializeHello(raw))
  {
  }
}
