/** Link state PDUs: headers, frames, and the neighbour and prefix TLVs. */
module Lsps {
  import opened Bytes
  import opened TlvList
  import SystemId

  const NEIGHBORS_TLV := 2
  const IP_INTERNAL_REACH_TLV := 128

  datatype PduHeader = PduHeader(
    discriminator: byte, lengthPDU: byte, protocolID: byte, systemIDLength: byte,
    typePDU: byte, version: byte, reserved: byte, maximumAreaAddresses: byte)

  datatype LspHeader = LspHeader(
    lengthPDU: Bytes2, remainingLifetime: Bytes2, lspID: Bytes8,
    sequenceNumber: Bytes4, checksum: Bytes2, pAttOLType: byte)

  datatype LspCore = LspCore(header: PduHeader, lspHeader: LspHeader, tlvs: seq<Tlv>)

  datatype Lsp = Lsp(key: nat, lspID: Bytes8, core: LspCore)

  function LspIDToKey(lspID: Bytes8): nat {
    Uint64(lspID)
  }

  function SequenceNumber(l: Lsp): uint32 {
    Uint32(l.core.lspHeader.sequenceNumber)
  }

  // ----- Frames ----------------------------------------------------------------

  function PduHeaderBytes(h: PduHeader): (bs: Bytes8) {
    [h.discriminator, h.lengthPDU, h.protocolID, h.systemIDLength,
     h.typePDU, h.version, h.reserved, h.maximumAreaAddresses]
  }

  function LspHeaderBytes(h: LspHeader): (bs: seq<byte>)
    ensures |bs| == 19
  {
    h.lengthPDU + h.remainingLifetime + h.lspID + h.sequenceNumber + h.checksum + [h.pAttOLType]
  }

  function SerializeLsp(core: LspCore): seq<byte> {
    PduHeaderBytes(core.header) + LspHeaderBytes(core.lspHeader) + Encode(core.tlvs)
  }

  function BuildEthernetFrame(dst: seq<byte>, src: seq<byte>, payload: seq<byte>): seq<byte> {
    dst + src + [0x08, 0x00] + payload
  }

  const ZERO_PDU_HEADER := PduHeader(0, 0, 0, 0, 0, 0, 0, 0)
  const ZERO_LSP_HEADER := LspHeader([0, 0], [0, 0], [0, 0, 0, 0, 0, 0, 0, 0], [0, 0, 0, 0], [0, 0], 0)

  /** binary.Read of the common header at i; a short buffer leaves it zero. */
  function ReadPduHeader(b: seq<byte>, i: nat): PduHeader {
    if |b| < i + 8 then ZERO_PDU_HEADER
    else PduHeader(b[i], b[i + 1], b[i + 2], b[i + 3], b[i + 4], b[i + 5], b[i + 6], b[i + 7])
  }

  /** binary.Read of the LSP header at i. */
  function ReadLspHeader(b: seq<byte>, i: nat): LspHeader {
    if |b| < i + 19 then ZERO_LSP_HEADER
    else LspHeader(b[i..i + 2], b[i + 2..i + 4], b[i + 4..i + 12], b[i + 12..i + 16], b[i + 16..i + 18], b[i + 18])
  }

  const PDU_OFFSET := 14
  const LSP_OFFSET := 22
  const TLV_OFFSET := 41

  function DeserializeLsp(raw: seq<byte>): Lsp
    requires |raw| >= PDU_OFFSET && WellFormed(raw, TLV_OFFSET)
  {
    var h := ReadLspHeader(raw, LSP_OFFSET);
    Lsp(LspIDToKey(h.lspID), h.lspID, LspCore(ReadPduHeader(raw, PDU_OFFSET), h, Decode(raw, TLV_OFFSET)))
  }

  /** The wrapper an LSP has in every database: key and ID repeat the header's ID. */
  predicate WellKeyed(l: Lsp) {
    l.lspID == l.core.lspHeader.lspID && l.key == LspIDToKey(l.lspID)
  }

  lemma ReadBackHeaders(prefix: seq<byte>, p: PduHeader, h: LspHeader, rest: seq<byte>)
    requires |prefix| == PDU_OFFSET
    ensures var raw := prefix + PduHeaderBytes(p) + LspHeaderBytes(h) + rest;
      ReadPduHeader(raw, PDU_OFFSET) == p && ReadLspHeader(raw, LSP_OFFSET) == h
  {
    var raw := prefix + PduHeaderBytes(p) + LspHeaderBytes(h) + rest;
    var b := LspHeaderBytes(h);
    assert forall j :: 0 <= j < 8 ==> raw[14 + j] == PduHeaderBytes(p)[j];
    assert raw[22..41] == b;
    assert raw[22..24] == b[0..2] == h.lengthPDU;
    assert raw[24..26] == b[2..4] == h.remainingLifetime;
    assert raw[26..34] == b[4..12] == h.lspID;
    assert raw[34..38] == b[12..16] == h.sequenceNumber;
    assert raw[38..40] == b[16..18] == h.checksum;
    assert raw[40] == b[18] == h.pAttOLType;
  }

  /** An LSP sent in a frame is the LSP received: headers, TLVs and key. */
  lemma FrameRoundTrip(dst: Bytes6, src: Bytes6, l: Lsp)
    requires WellKeyed(l) && Matches(l.core.tlvs)
    ensures var raw := BuildEthernetFrame(dst, src, SerializeLsp(l.core));
      |raw| >= PDU_OFFSET && WellFormed(raw, TLV_OFFSET) && DeserializeLsp(raw) == l
  {
    var prefix := dst + src + [0x08, 0x00];
    var p, h, ts := l.core.header, l.core.lspHeader, l.core.tlvs;
    var raw := BuildEthernetFrame(dst, src, SerializeLsp(l.core));
    var upTo := prefix + PduHeaderBytes(p) + LspHeaderBytes(h);
    assert raw == upTo + Encode(ts);
    ReadBackHeaders(prefix, p, h, Encode(ts));
    DecodeOfEncode(upTo, ts);
  }

  lemma SliceOfSlice(s: seq<byte>, a: nat, n: nat, c: nat, d: nat)
    requires c <= d <= n && a + n <= |s|
    ensures s[a..a + n][c..d] == s[a + c..a + d]
  {
    var t := s[a..a + n];
    var u, v := t[c..d], s[a + c..a + d];
    assert forall j :: 0 <= j < |u| ==> u[j] == v[j];
  }

  /** Writing back a header that was read gives its bytes. */
  lemma RewriteHeaders(raw: seq<byte>)
    requires |raw| >= TLV_OFFSET
    ensures PduHeaderBytes(ReadPduHeader(raw, PDU_OFFSET)) == raw[14..22]
    ensures LspHeaderBytes(ReadLspHeader(raw, LSP_OFFSET)) == raw[22..41]
  {
    assert raw[22..41] == raw[22..24] + raw[24..26] + raw[26..34] + raw[34..38] + raw[38..40] + [raw[40]];
  }

  /** Serializing a received LSP again gives back the bytes it came in. */
  lemma ReserializeIsIdentity(raw: seq<byte>)
    requires |raw| >= TLV_OFFSET && WellFormed(raw, TLV_OFFSET)
    ensures SerializeLsp(DeserializeLsp(raw).core) == raw[PDU_OFFSET..] && WellKeyed(DeserializeLsp(raw))
  {
    EncodeOfDecode(raw, TLV_OFFSET);
    RewriteHeaders(raw);
    PayloadParts(raw);
  }

  lemma PayloadParts(raw: seq<byte>)
    requires |raw| >= TLV_OFFSET
    ensures raw[14..22] + raw[22..41] + raw[41..] == raw[14..]
  {
  }

  /** Where everything in a serialized LSP stands. */
  lemma LspLayout(core: LspCore)
    ensures var p, c, h := SerializeLsp(core), core.header, core.lspHeader;
      && |p| == 27 + |Encode(core.tlvs)|
      && p[0] == c.discriminator && p[1] == c.lengthPDU && p[2] == c.protocolID && p[3] == c.systemIDLength
      && p[4] == c.typePDU && p[5] == c.version && p[6] == c.reserved && p[7] == c.maximumAreaAddresses
      && p[8..10] == h.lengthPDU && p[10..12] == h.remainingLifetime && p[12..20] == h.lspID
      && p[20..24] == h.sequenceNumber && p[24..26] == h.checksum && p[26] == h.pAttOLType
      && p[27..] == Encode(core.tlvs)
  {
    var p, h := SerializeLsp(core), core.lspHeader;
    var b := LspHeaderBytes(h);
    assert p[..8] == PduHeaderBytes(core.header) && p[8..27] == b;
    SliceOfSlice(p, 8, 19, 0, 2);
    SliceOfSlice(p, 8, 19, 2, 4);
    SliceOfSlice(p, 8, 19, 4, 12);
    SliceOfSlice(p, 8, 19, 12, 16);
    SliceOfSlice(p, 8, 19, 16, 18);
    assert p[26] == b[18];
  }

  lemma FrameLayout(dst: Bytes6, src: Bytes6, payload: seq<byte>)
    ensures var raw := BuildEthernetFrame(dst, src, payload);
      |raw| == 14 + |payload| && raw[..6] == dst && raw[6..12] == src && raw[12..14] == [0x08, 0x00] && raw[14..] == payload
  {
  }

  /** A frame that ends before its LSP header does leaves that header zero and has no TLVs. */
  lemma ShortFrameIsZero(raw: seq<byte>)
    requires 14 <= |raw| < 41
    ensures WellFormed(raw, TLV_OFFSET)
    ensures var l := DeserializeLsp(raw);
      l.key == 0 && l.lspID == [0, 0, 0, 0, 0, 0, 0, 0] && SequenceNumber(l) == 0 && l.core.tlvs == []
  {
  }

  // ----- Fixed-size blocks -------------------------------------------------------

  function Blocks(es: seq<seq<byte>>): seq<byte> {
    if es == [] then [] else Blocks(es[..|es| - 1]) + es[|es| - 1]
  }

  /** Block i stands behind the blocks before it. */
  lemma {:induction false} BlockStands(es: seq<seq<byte>>, i: nat)
    requires i < |es|
    ensures var a := |Blocks(es[..i])|; a + |es[i]| <= |Blocks(es)| && Blocks(es)[a..a + |es[i]|] == es[i]
  {
    var init, last := es[..|es| - 1], es[|es| - 1];
    if i < |init| {
      BlockStands(init, i);
      assert init[..i] == es[..i];
      var a := |Blocks(es[..i])|;
      SliceOfFront(Blocks(init), last, a, a + |es[i]|);
    } else {
      SliceOfBack(Blocks(init), last);
    }
  }

  lemma BlockAt(es: seq<seq<byte>>, n: nat, i: nat)
    requires forall j :: 0 <= j < |es| ==> |es[j]| == n
    requires i < |es|
    ensures |Blocks(es)| == n * |es| && n * i + n <= n * |es|
    ensures Blocks(es)[n * i..n * i + n] == es[i]
  {
    BlocksLength(es, n);
    BlocksLength(es[..i], n);
    BlockStands(es, i);
  }

  lemma SliceOfFront(s: seq<byte>, t: seq<byte>, a: nat, b: nat)
    requires a <= b <= |s|
    ensures (s + t)[a..b] == s[a..b]
  {
  }

  lemma SliceOfBack(s: seq<byte>, t: seq<byte>)
    ensures (s + t)[|s|..|s| + |t|] == t
  {
  }

  lemma {:induction false} BlocksLength(es: seq<seq<byte>>, n: nat)
    requires forall j :: 0 <= j < |es| ==> |es[j]| == n
    ensures |Blocks(es)| == n * |es|
  {
    if es != [] {
      BlocksLength(es[..|es| - 1], n);
      MulStep(n, |es| - 1);
    }
  }

  lemma MulStep(n: nat, k: nat)
    ensures n * (k + 1) == n * k + n
  {
  }

  // ----- Neighbour TLV -------------------------------------------------------------

  datatype Neighbor = Neighbor(systemID: string, metric: uint32)

  /** Go's integer division of length - 1 by 11 truncates towards zero. */
  function NeighborCount(t: Tlv): (count: nat)
    ensures if t.lengthTLV == 0 then count == 0 else 1 + 11 * count <= t.lengthTLV < 12 + 11 * count
  {
    if t.lengthTLV == 0 then 0 else (t.lengthTLV - 1) / 11
  }

  /** getNeighbors slices the value without a check, so it must be long enough. */
  predicate Readable(t: Tlv) {
    1 + 11 * NeighborCount(t) <= |t.valueTLV| || NeighborCount(t) == 0
  }

  /** Entry i of a value: metric, system ID, pseudonode, behind the virtual flag byte. */
  function EntryAt(v: seq<byte>, i: nat): Neighbor
    requires 1 + 11 * i + 11 <= |v|
  {
    var b := 1 + 11 * i;
    Neighbor(SystemId.Text(v[b + 4..b + 10]), Uint32(v[b..b + 4]))
  }

  function EntriesIn(v: seq<byte>, count: nat): (ns: seq<Neighbor>)
    requires 1 + 11 * count <= |v| || count == 0
    ensures |ns| == count
  {
    seq(count, i requires 0 <= i < count => EntryAt(v, i))
  }

  function NeighborAt(t: Tlv, i: nat): Neighbor
    requires Readable(t) && i < NeighborCount(t)
  {
    EntryAt(t.valueTLV, i)
  }

  function Neighbors(t: Tlv): (ns: seq<Neighbor>)
    requires Readable(t)
    ensures |ns| == NeighborCount(t)
  {
    EntriesIn(t.valueTLV, NeighborCount(t))
  }

  method GetNeighbors(t: Tlv) returns (neighbors: seq<Neighbor>)
    requires Readable(t)
    ensures neighbors == Neighbors(t)
  {
    neighbors := ReadEntries(t.valueTLV, NeighborCount(t));
  }

  /** The loop of getNeighbors. */
  method ReadEntries(v: seq<byte>, count: nat) returns (neighbors: seq<Neighbor>)
    requires 1 + 11 * count <= |v| || count == 0
    ensures neighbors == EntriesIn(v, count)
  {
    neighbors := [];
    var currentNeighbor, currentByte := 0, 1;
    while currentNeighbor < count
      invariant 0 <= currentNeighbor <= count
      invariant currentByte == 1 + 11 * currentNeighbor
      invariant neighbors == EntriesIn(v, currentNeighbor)
    {
      var neighbor;
      neighbor, currentByte := ReadEntry(v, currentByte);
      EntriesSnoc(v, currentNeighbor);
      neighbors := neighbors + [neighbor];
      currentNeighbor := currentNeighbor + 1;
    }
  }

  /** The body of that loop: metric, system ID, and the pseudonode is skipped. */
  method ReadEntry(v: seq<byte>, currentByte: nat) returns (neighbor: Neighbor, next: nat)
    requires currentByte + 11 <= |v|
    ensures neighbor == Neighbor(SystemId.Text(v[currentByte + 4..currentByte + 10]), Uint32(v[currentByte..currentByte + 4]))
    ensures next == currentByte + 11
  {
    var metric := Uint32(v[currentByte..currentByte + 4]);
    next := currentByte + 4;
    var systemID := SystemId.SystemIDToString(v[next..next + 6]);
    next := next + 7;
    neighbor := Neighbor(systemID, metric);
  }

  lemma EntriesSnoc(v: seq<byte>, k: nat)
    requires 1 + 11 * (k + 1) <= |v|
    ensures EntriesIn(v, k + 1) == EntriesIn(v, k) + [EntryAt(v, k)]
  {
  }

  /** One neighbour on the wire: metric 10, system ID, pseudonode 0. */
  function NeighborEntry(id: Bytes6): (e: seq<byte>)
    ensures |e| == 11
  {
    [0, 0, 0, 10] + id + [0]
  }

  function NeighborEntries(ids: seq<Bytes6>): (es: seq<seq<byte>>)
    ensures |es| == |ids| && forall i :: 0 <= i < |ids| ==> es[i] == NeighborEntry(ids[i])
  {
    seq(|ids|, i requires 0 <= i < |ids| => NeighborEntry(ids[i]))
  }

  /** The TLV getNeighborTLV builds: the length byte wraps, the value does not. */
  function NeighborTlv(ids: seq<Bytes6>): Tlv {
    Tlv(NEIGHBORS_TLV, (1 + 11 * |ids|) % 256, [0] + Blocks(NeighborEntries(ids)))
  }

  /** The neighbours that should come back: each listed system at metric 10. */
  function Advertised(ids: seq<Bytes6>): (ns: seq<Neighbor>)
    ensures |ns| == |ids|
  {
    seq(|ids|, i requires 0 <= i < |ids| => Neighbor(SystemId.Text(ids[i]), 10))
  }

  lemma NeighborTlvIsReadable(ids: seq<Bytes6>)
    ensures Readable(NeighborTlv(ids)) && NeighborCount(NeighborTlv(ids)) <= |ids|
    ensures |NeighborTlv(ids).valueTLV| == 1 + 11 * |ids|
  {
    BlocksLength(NeighborEntries(ids), 11);
  }

  /** One neighbour on the wire at any metric. */
  function MetricEntry(metric: uint32, id: Bytes6): (e: seq<byte>)
    ensures |e| == 11
  {
    PutUint32(metric) + id + [0]
  }

  lemma NeighborEntryFields(v: seq<byte>, b: nat, metric: uint32, id: Bytes6)
    requires b + 11 <= |v| && v[b..b + 11] == MetricEntry(metric, id)
    ensures v[b..b + 4] == PutUint32(metric) && v[b + 4..b + 10] == id
  {
    var e := MetricEntry(metric, id);
    assert e[0..4] == PutUint32(metric) && e[4..10] == id;
    SliceOfSlice(v, b, 11, 0, 4);
    SliceOfSlice(v, b, 11, 4, 10);
  }

  lemma NeighborTlvBytes(ids: seq<Bytes6>, i: nat)
    requires i < |ids|
    ensures var v := NeighborTlv(ids).valueTLV;
      |v| == 1 + 11 * |ids| && v[1 + 11 * i..1 + 11 * i + 11] == NeighborEntry(ids[i])
  {
    var es := NeighborEntries(ids);
    BlocksLength(es, 11);
    BlockAt(es, 11, i);
  }

  /** Reading an entry's bytes gives the system and the metric that wrote them. */
  lemma NeighborFromBytes(t: Tlv, i: nat, metric: uint32, id: Bytes6)
    requires Readable(t) && i < NeighborCount(t)
    requires t.valueTLV[1 + 11 * i..1 + 11 * i + 11] == MetricEntry(metric, id)
    ensures NeighborAt(t, i) == Neighbor(SystemId.Text(id), metric)
  {
    NeighborEntryFields(t.valueTLV, 1 + 11 * i, metric, id);
    Uint32RoundTrip(metric);
  }

  lemma NeighborTlvEntry(ids: seq<Bytes6>, i: nat)
    requires Readable(NeighborTlv(ids)) && i < NeighborCount(NeighborTlv(ids)) <= |ids|
    ensures NeighborAt(NeighborTlv(ids), i) == Advertised(ids)[i]
  {
    NeighborTlvBytes(ids, i);
    assert NeighborEntry(ids[i]) == MetricEntry(10, ids[i]);
    NeighborFromBytes(NeighborTlv(ids), i, 10, ids[i]);
  }

  lemma AllNeighborsBack(ids: seq<Bytes6>)
    requires Readable(NeighborTlv(ids)) && NeighborCount(NeighborTlv(ids)) == |ids|
    ensures Neighbors(NeighborTlv(ids)) == Advertised(ids)
  {
    forall i | 0 <= i < |ids| ensures Neighbors(NeighborTlv(ids))[i] == Advertised(ids)[i] {
      NeighborTlvEntry(ids, i);
    }
  }

  lemma NeighborTlvCount(ids: seq<Bytes6>)
    ensures NeighborCount(NeighborTlv(ids)) == |ids| <==> |ids| <= 23
  {
  }

  /** Decoding the neighbour TLV gives back every adjacency, in order, at metric 10
      exactly when there are at most 23: beyond that the length byte has wrapped. */
  lemma NeighborRoundTripIff(ids: seq<Bytes6>)
    ensures Readable(NeighborTlv(ids))
    ensures Neighbors(NeighborTlv(ids)) == Advertised(ids) <==> |ids| <= 23
  {
    NeighborTlvIsReadable(ids);
    NeighborTlvCount(ids);
    if |ids| <= 23 {
      AllNeighborsBack(ids);
    }
  }

  // ----- Prefix TLV ------------------------------------------------------------------

  datatype Route = Route(ip: Bytes4, mask: Bytes4)

  function PrefixCount(t: Tlv): (count: nat)
    ensures 12 * count <= t.lengthTLV < 12 * (count + 1)
  {
    t.lengthTLV / 12
  }

  function Prefixes(t: Tlv): (rs: seq<Route>)
    requires 12 * PrefixCount(t) <= |t.valueTLV|
    ensures |rs| == PrefixCount(t)
  {
    seq(PrefixCount(t), i requires 0 <= i < PrefixCount(t) =>
      Route(t.valueTLV[i * 12..i * 12 + 4], t.valueTLV[i * 12 + 4..i * 12 + 8]))
  }

  method GetPrefixesFromTLV(t: Tlv) returns (prefixes: seq<Route>)
    requires 12 * PrefixCount(t) <= |t.valueTLV|
    ensures prefixes == Prefixes(t)
  {
    prefixes := [];
    var currentPrefix := 0;
    while currentPrefix < PrefixCount(t)
      invariant 0 <= currentPrefix <= PrefixCount(t)
      invariant prefixes == Prefixes(t)[..currentPrefix]
    {
      var b := currentPrefix * 12;
      prefixes := prefixes + [Route(t.valueTLV[b..b + 4], t.valueTLV[b + 4..b + 8])];
      currentPrefix := currentPrefix + 1;
    }
  }

  /** One prefix on the wire: address, mask, metric 10. */
  function RouteEntry(r: Route): (e: seq<byte>)
    ensures |e| == 12
  {
    r.ip + r.mask + [0, 0, 0, 10]
  }

  function RouteEntries(rs: seq<Route>): (es: seq<seq<byte>>)
    ensures |es| == |rs| && forall i :: 0 <= i < |rs| ==> es[i] == RouteEntry(rs[i])
  {
    seq(|rs|, i requires 0 <= i < |rs| => RouteEntry(rs[i]))
  }

  function ReachTlv(rs: seq<Route>): Tlv {
    Tlv(IP_INTERNAL_REACH_TLV, 12 * |rs| % 256, Blocks(RouteEntries(rs)))
  }

  lemma ReachTlvEntry(rs: seq<Route>, i: nat)
    requires i < |rs|
    ensures |ReachTlv(rs).valueTLV| == 12 * |rs|
    ensures var v := ReachTlv(rs).valueTLV;
      v[i * 12..i * 12 + 4] == rs[i].ip && v[i * 12 + 4..i * 12 + 8] == rs[i].mask
  {
    var es := RouteEntries(rs);
    var v := ReachTlv(rs).valueTLV;
    BlockAt(es, 12, i);
    var b := i * 12;
    assert v[b..b + 12] == RouteEntry(rs[i]);
    SliceOfSlice(v, b, 12, 0, 4);
    SliceOfSlice(v, b, 12, 4, 8);
  }

  lemma ReachTlvFits(rs: seq<Route>)
    ensures |ReachTlv(rs).valueTLV| == 12 * |rs| && PrefixCount(ReachTlv(rs)) <= |rs|
    ensures PrefixCount(ReachTlv(rs)) == |rs| <==> |rs| <= 21
  {
    BlocksLength(RouteEntries(rs), 12);
  }

  /** Decoding the prefix TLV gives back every route, in order, exactly when there
      are at most 21. */
  lemma PrefixRoundTripIff(rs: seq<Route>)
    ensures 12 * PrefixCount(ReachTlv(rs)) <= |ReachTlv(rs).valueTLV|
    ensures Prefixes(ReachTlv(rs)) == rs <==> |rs| <= 21
  {
    ReachTlvFits(rs);
    if |rs| <= 21 {
      AllPrefixesBack(rs);
    }
  }

  lemma AllPrefixesBack(rs: seq<Route>)
    requires |ReachTlv(rs).valueTLV| == 12 * |rs| && PrefixCount(ReachTlv(rs)) == |rs|
    ensures Prefixes(ReachTlv(rs)) == rs
  {
    forall i | 0 <= i < |rs| ensures Prefixes(ReachTlv(rs))[i] == rs[i] {
      ReachTlvEntry(rs, i);
    }
  }

  // ----- Neighbours of an LSP -----------------------------------------------------------

  /** getNeighbors can read whichever neighbour TLV lookupNeighbors finds. */
  predicate AllReadable(ts: seq<Tlv>) {
    forall i :: 0 <= i < |ts| && ts[i].typeTLV == NEIGHBORS_TLV ==> Readable(ts[i])
  }

  /** The neighbours in the first neighbour TLV, none if there is no such TLV. */
  function LookupNeighbors(ts: seq<Tlv>): seq<Neighbor>
    requires AllReadable(ts)
  {
    if ts == [] then []
    else if ts[0].typeTLV == NEIGHBORS_TLV then Neighbors(ts[0])
    else LookupNeighbors(ts[1..])
  }

  /** The first neighbour TLV counts, whatever stands around it. */
  lemma {:induction false} LookupIsFirst(ts: seq<Tlv>, i: nat)
    requires AllReadable(ts) && i <= |ts| && forall j :: 0 <= j < i ==> ts[j].typeTLV != 2
    ensures i == |ts| ==> LookupNeighbors(ts) == []
    ensures i < |ts| && ts[i].typeTLV == 2 ==> LookupNeighbors(ts) == Neighbors(ts[i])
  {
    if i > 0 {
      LookupIsFirst(ts[1..], i - 1);
    }
  }

  /** The TLVs generateLocalLsp puts in the local LSP. */
  function LocalTlvs(routes: seq<Route>, upNeighbors: seq<Bytes6>): seq<Tlv> {
    [ReachTlv(routes), NeighborTlv(upNeighbors)]
  }

  /** What other systems read from a local LSP: its UP adjacencies, at metric 10. */
  lemma LocalTlvsListAdjacencies(routes: seq<Route>, ids: seq<Bytes6>)
    ensures AllReadable(LocalTlvs(routes, ids))
    ensures |ids| <= 23 ==> LookupNeighbors(LocalTlvs(routes, ids)) == Advertised(ids)
    ensures |ids| <= 23 && |routes| <= 21 ==> Matches(LocalTlvs(routes, ids))
  {
    NeighborRoundTripIff(ids);
    LocalTlvsMatchIff(routes, ids);
    var ts := LocalTlvs(routes, ids);
    assert ts[1..] == [NeighborTlv(ids)];
  }

  /** Beyond these limits a length byte has wrapped. */
  lemma LocalTlvsMatchIff(routes: seq<Route>, ids: seq<Bytes6>)
    ensures Matches(LocalTlvs(routes, ids)) <==> |routes| <= 21 && |ids| <= 23
  {
    var ts := LocalTlvs(routes, ids);
    NeighborTlvMatchesIff(ids);
    ReachTlvMatchesIff(routes);
    assert Matches(ts) <==> ts[0].lengthTLV == |ts[0].valueTLV| && ts[1].lengthTLV == |ts[1].valueTLV|;
  }

  lemma NeighborTlvMatchesIff(ids: seq<Bytes6>)
    ensures NeighborTlv(ids).lengthTLV == |NeighborTlv(ids).valueTLV| <==> |ids| <= 23
  {
    BlocksLength(NeighborEntries(ids), 11);
  }

  lemma ReachTlvMatchesIff(rs: seq<Route>)
    ensures ReachTlv(rs).lengthTLV == |ReachTlv(rs).valueTLV| <==> |rs| <= 21
  {
    BlocksLength(RouteEntries(rs), 12);
  }

  /** Even a local LSP with too many adjacencies lists only real ones, at metric 10. */
  lemma LocalTlvsListOnlyAdjacencies(routes: seq<Route>, ids: seq<Bytes6>, n: Neighbor)
    requires AllReadable(LocalTlvs(routes, ids)) && n in LookupNeighbors(LocalTlvs(routes, ids))
    ensures n.metric == 10 && exists i :: 0 <= i < |ids| && n.systemID == SystemId.Text(ids[i])
  {
    var ts := LocalTlvs(routes, ids);
    assert ts[1..] == [NeighborTlv(ids)];
    NeighborTlvIsReadable(ids);
    var i :| 0 <= i < |Neighbors(NeighborTlv(ids))| && Neighbors(NeighborTlv(ids))[i] == n;
    NeighborTlvEntry(ids, i);
  }
}
