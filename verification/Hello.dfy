/** Hello PDUs: contents and frames. */
module Hellos {
  import opened Bytes
  import opened TlvList
  import opened Lsps

  const IS_NEIGHBORS_TLV := 6
  const IP_INTF_ADDR_TLV := 132
  const L1_LAN_IIH := 0x0F
  const L1_LSP := 0x12
  const DISCRIMINATOR := 0x83
  const L1_MULTICAST: Bytes6 := [0x01, 0x80, 0xc2, 0x00, 0x00, 0x14]

  /** What the receiver of a hello uses: the sender's MAC, its system ID, and the TLVs. */
  datatype Hello = Hello(sourceMac: Bytes6, source: Bytes6, tlvs: seq<Tlv>)

  /** A reply echoes the MAC it answers and carries the sender's own address. */
  function ReplyTlvs(mac: Bytes6, ip: Bytes4): seq<Tlv> {
    [Tlv(IS_NEIGHBORS_TLV, 6, mac), Tlv(IP_INTF_ADDR_TLV, 4, ip)]
  }

  const HELLO_PDU_HEADER := PduHeader(DISCRIMINATOR, 0, 1, 0, L1_LAN_IIH, 1, 0, 0)

  /** Circuit type, source, holding time, length, priority, designated system: 20 bytes. */
  function HelloHeaderBytes(source: Bytes6): (bs: seq<byte>)
    ensures |bs| == 20
  {
    [0x01] + source + [0x3c, 0x00] + [0x00, 0x00] + [0x00, 0x40] + [0, 0, 0, 0, 0, 0, 0]
  }

  function SerializeHello(h: Hello): seq<byte> {
    PduHeaderBytes(HELLO_PDU_HEADER) + HelloHeaderBytes(h.source) + Encode(h.tlvs)
  }

  const HELLO_TLV_OFFSET := 42

  /** A frame too short for the hello header leaves the source zero. */
  function DeserializeHello(raw: seq<byte>): Hello
    requires |raw| >= PDU_OFFSET && WellFormed(raw, HELLO_TLV_OFFSET)
  {
    Hello(raw[6..12], if |raw| < HELLO_TLV_OFFSET then [0, 0, 0, 0, 0, 0] else raw[23..29],
          Decode(raw, HELLO_TLV_OFFSET))
  }

  /** A hello sent in a frame is the hello received. */
  lemma HelloRoundTrip(h: Hello)
    requires Matches(h.tlvs)
    ensures var raw := BuildEthernetFrame(L1_MULTICAST, h.sourceMac, SerializeHello(h));
      && |raw| >= HELLO_TLV_OFFSET && WellFormed(raw, HELLO_TLV_OFFSET)
      && DeserializeHello(raw) == h && raw[..6] == L1_MULTICAST
      && raw[14] == DISCRIMINATOR && raw[18] == L1_LAN_IIH
  {
    var raw := BuildEthernetFrame(L1_MULTICAST, h.sourceMac, SerializeHello(h));
    var upTo := L1_MULTICAST + h.sourceMac + [0x08, 0x00]
                + PduHeaderBytes(HELLO_PDU_HEADER) + HelloHeaderBytes(h.source);
    assert raw == upTo + Encode(h.tlvs);
    DecodeOfEncode(upTo, h.tlvs);
    assert upTo[6..12] == h.sourceMac && upTo[23..29] == h.source && upTo[..6] == L1_MULTICAST;
    assert upTo[14] == DISCRIMINATOR && upTo[18] == L1_LAN_IIH;
  }
}
