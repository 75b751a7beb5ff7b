/** Type-length-value lists: the linked list that parseTLVs builds from a buffer,
    and the loop that writes one back. */
module TlvList {
  import opened Bytes

  datatype Tlv = Tlv(typeTLV: byte, lengthTLV: byte, valueTLV: seq<byte>)

  /** The length byte tells the truth about the value. */
  predicate Matches(ts: seq<Tlv>) {
    forall i :: 0 <= i < |ts| ==> ts[i].lengthTLV == |ts[i].valueTLV|
  }

  function Encode(ts: seq<Tlv>): seq<byte> {
    if ts == [] then []
    else [ts[0].typeTLV, ts[0].lengthTLV] + ts[0].valueTLV + Encode(ts[1..])
  }

  /** From index i on, parseTLVs can walk the buffer without running off its end. */
  predicate WellFormed(raw: seq<byte>, i: nat)
    decreases |raw| - i
  {
    i < |raw| ==> i + 1 < |raw| && Next(raw, i) <= |raw| && WellFormed(raw, Next(raw, i))
  }

  /** Where the TLV after the one at i starts. */
  function Next(raw: seq<byte>, i: nat): nat
    requires i + 1 < |raw|
  {
    i + (raw[i + 1] as int + 2)
  }

  function Decode(raw: seq<byte>, i: nat): seq<Tlv>
    requires WellFormed(raw, i)
    decreases |raw| - i
  {
    if i >= |raw| then []
    else [Tlv(raw[i], raw[i + 1], raw[i + 2..Next(raw, i)])] + Decode(raw, Next(raw, i))
  }

  /** Encoded TLVs after any prefix are read back from the end of that prefix. */
  lemma {:induction false} DecodeOfEncode(prefix: seq<byte>, ts: seq<Tlv>)
    requires Matches(ts)
    ensures WellFormed(prefix + Encode(ts), |prefix|)
    ensures Decode(prefix + Encode(ts), |prefix|) == ts
    decreases |ts|
  {
    var raw := prefix + Encode(ts);
    if ts != [] {
      var t := ts[0];
      var longer := prefix + [t.typeTLV, t.lengthTLV] + t.valueTLV;
      assert raw == longer + Encode(ts[1..]);
      DecodeOfEncode(longer, ts[1..]);
      assert raw[|prefix|] == t.typeTLV && raw[|prefix| + 1] == t.lengthTLV;
      assert Next(raw, |prefix|) == |longer|;
      assert raw[|prefix| + 2..|longer|] == t.valueTLV;
      assert ts == [t] + ts[1..];
    }
  }

  lemma EncodeCons(t: Tlv, rest: seq<Tlv>)
    ensures Encode([t] + rest) == [t.typeTLV, t.lengthTLV] + t.valueTLV + Encode(rest)
  {
    assert ([t] + rest)[1..] == rest;
  }

  /** Writing back what was parsed gives the same bytes. */
  lemma {:induction false} EncodeOfDecode(raw: seq<byte>, i: nat)
    requires i <= |raw| && WellFormed(raw, i)
    ensures Encode(Decode(raw, i)) == raw[i..] && Matches(Decode(raw, i))
    decreases |raw| - i
  {
    if i < |raw| {
      var n := Next(raw, i);
      var t, rest := Tlv(raw[i], raw[i + 1], raw[i + 2..n]), Decode(raw, n);
      EncodeOfDecode(raw, n);
      EncodeCons(t, rest);
      assert raw[i..] == [raw[i], raw[i + 1]] + raw[i + 2..n] + raw[n..];
    }
  }

  /** A TLV list survives the wire exactly when every length byte matches its value. */
  lemma RoundTripIff(ts: seq<Tlv>)
    ensures (WellFormed(Encode(ts), 0) && Decode(Encode(ts), 0) == ts) <==> Matches(ts)
  {
    if Matches(ts) {
      DecodeOfEncode([], ts);
      assert [] + Encode(ts) == Encode(ts);
    }
    if WellFormed(Encode(ts), 0) {
      EncodeOfDecode(Encode(ts), 0);
    }
  }

  lemma {:induction false} EncodeConcat(a: seq<Tlv>, b: seq<Tlv>)
    ensures Encode(a + b) == Encode(a) + Encode(b)
  {
    if a == [] {
      assert a + b == b;
    } else {
      EncodeConcat(a[1..], b);
      assert (a + b)[1..] == a[1..] + b;
    }
  }

  /** Each TLV stands behind those before it: its type, its length, its value. */
  lemma EncodedAt(ts: seq<Tlv>, i: nat)
    requires i < |ts|
    ensures var o, t, bs := |Encode(ts[..i])|, ts[i], Encode(ts);
      && o + 2 + |t.valueTLV| <= |bs| && bs[o] == t.typeTLV && bs[o + 1] == t.lengthTLV
      && bs[o + 2..o + 2 + |t.valueTLV|] == t.valueTLV
  {
    var before, t, after := Encode(ts[..i]), ts[i], Encode(ts[i + 1..]);
    assert ts == ts[..i] + ([t] + ts[i + 1..]);
    EncodeConcat(ts[..i], [t] + ts[i + 1..]);
    EncodeCons(t, ts[i + 1..]);
    assert Encode(ts) == before + ([t.typeTLV, t.lengthTLV] + t.valueTLV + after);
  }

  // ----- The list on the heap ------------------------------------------------

  class IsisTLV {
    var nextTLV: IsisTLV?
    var typeTLV: byte
    var lengthTLV: byte
    var valueTLV: seq<byte>

    constructor (typeTLV: byte, lengthTLV: byte, valueTLV: seq<byte>)
      ensures nextTLV == null && this.typeTLV == typeTLV
      ensures this.lengthTLV == lengthTLV && this.valueTLV == valueTLV
    {
      nextTLV := null;
      this.typeTLV, this.lengthTLV, this.valueTLV := typeTLV, lengthTLV, valueTLV;
    }
  }

  /** nodes are the links reached from first, in order, ending in nil; ts are their values. */
  ghost predicate Linked(first: IsisTLV?, nodes: seq<IsisTLV>, ts: seq<Tlv>)
    reads nodes
  {
    && |ts| == |nodes|
    && (first == null <==> nodes == [])
    && (nodes != [] ==> first == nodes[0] && nodes[|nodes| - 1].nextTLV == null)
    && (forall i :: 0 <= i < |nodes| - 1 ==> nodes[i].nextTLV == nodes[i + 1])
    && (forall i, j :: 0 <= i < j < |nodes| ==> nodes[i] != nodes[j])
    && (forall i :: 0 <= i < |nodes| ==>
          ts[i] == Tlv(nodes[i].typeTLV, nodes[i].lengthTLV, nodes[i].valueTLV))
  }

  /** The list built so far, and its last link. */
  ghost predicate Building(first: IsisTLV?, previous: IsisTLV?, nodes: seq<IsisTLV>, ts: seq<Tlv>)
    reads nodes
  {
    Linked(first, nodes, ts) && previous == if nodes == [] then null else nodes[|nodes| - 1]
  }

  /** Allocates a TLV and hangs it on the end of the list, or starts the list with it. */
  method Append(first: IsisTLV?, previous: IsisTLV?, t: Tlv, ghost nodes: seq<IsisTLV>, ghost ts: seq<Tlv>)
    returns (head: IsisTLV, current: IsisTLV)
    requires Building(first, previous, nodes, ts)
    modifies previous
    ensures fresh(current) && Building(head, current, nodes + [current], ts + [t])
  {
    current := new IsisTLV(t.typeTLV, t.lengthTLV, t.valueTLV);
    if first == null {
      head := current;
    } else {
      head := first;
      previous.nextTLV := current;
    }
  }

  /** ts has been read from raw between start and i; the rest is still to come. */
  ghost predicate Parsed(raw: seq<byte>, start: nat, i: nat, ts: seq<Tlv>)
    requires WellFormed(raw, start)
  {
    WellFormed(raw, i) && ts + Decode(raw, i) == Decode(raw, start)
  }

  /** Reading the TLV at i. */
  lemma ParseStep(raw: seq<byte>, start: nat, i: nat, ts: seq<Tlv>)
    requires WellFormed(raw, start) && Parsed(raw, start, i, ts) && i < |raw|
    ensures i + 1 < |raw| && Next(raw, i) <= |raw|
    ensures Parsed(raw, start, Next(raw, i), ts + [Tlv(raw[i], raw[i + 1], raw[i + 2..Next(raw, i)])])
  {
    var t := Tlv(raw[i], raw[i + 1], raw[i + 2..Next(raw, i)]);
    assert ts + [t] + Decode(raw, Next(raw, i)) == ts + Decode(raw, i);
  }

  lemma ParsedAll(raw: seq<byte>, start: nat, i: nat, ts: seq<Tlv>)
    requires WellFormed(raw, start) && Parsed(raw, start, i, ts) && i >= |raw|
    ensures ts == Decode(raw, start)
  {
  }

  method ParseTLVs(raw: seq<byte>, start: nat) returns (first: IsisTLV?, ghost nodes: seq<IsisTLV>)
    requires WellFormed(raw, start)
    ensures Linked(first, nodes, Decode(raw, start)) && fresh(nodes)
  {
    first, nodes := null, [];
    ghost var ts: seq<Tlv> := [];
    var previous: IsisTLV? := null;
    var startIndex, remaining := start, |raw| - start;
    while remaining > 0
      invariant remaining == |raw| - startIndex && Parsed(raw, start, startIndex, ts)
      invariant Building(first, previous, nodes, ts) && fresh(nodes)
      decreases remaining
    {
      ParseStep(raw, start, startIndex, ts);
      var next := Next(raw, startIndex);
      var t := Tlv(raw[startIndex], raw[startIndex + 1], raw[startIndex + 2..next]);
      first, previous := Append(first, previous, t, nodes, ts);
      nodes, ts := nodes + [previous], ts + [t];
      remaining, startIndex := remaining - (next - startIndex), next;
    }
    ParsedAll(raw, start, startIndex, ts);
  }

  lemma SerializeStep(ts: seq<Tlv>, i: nat, buf: seq<byte>)
    requires i < |ts| && buf + Encode(ts[i..]) == Encode(ts)
    ensures buf + [ts[i].typeTLV] + [ts[i].lengthTLV] + ts[i].valueTLV + Encode(ts[i + 1..]) == Encode(ts)
  {
    EncodeFrom(ts, i);
    Regroup(buf, ts[i].typeTLV, ts[i].lengthTLV, ts[i].valueTLV, Encode(ts[i + 1..]));
  }

  lemma EncodeFrom(ts: seq<Tlv>, i: nat)
    requires i < |ts|
    ensures Encode(ts[i..]) == [ts[i].typeTLV, ts[i].lengthTLV] + ts[i].valueTLV + Encode(ts[i + 1..])
  {
    assert ts[i..] == [ts[i]] + ts[i + 1..];
    EncodeCons(ts[i], ts[i + 1..]);
  }

  lemma Regroup(a: seq<byte>, x: byte, y: byte, b: seq<byte>, c: seq<byte>)
    ensures a + [x] + [y] + b + c == a + ([x, y] + b + c)
  {
  }

  /** The TLV loop of serializeLsp. */
  method SerializeTLVs(first: IsisTLV?, ghost nodes: seq<IsisTLV>, ghost ts: seq<Tlv>)
    returns (buf: seq<byte>)
    requires Linked(first, nodes, ts)
    ensures buf == Encode(ts)
  {
    buf := [];
    var tlv := first;
    ghost var i := 0;
    while tlv != null
      invariant 0 <= i <= |nodes|
      invariant tlv == if i < |nodes| then nodes[i] else null
      invariant buf + Encode(ts[i..]) == Encode(ts)
      decreases |nodes| - i
    {
      SerializeStep(ts, i, buf);
      buf := buf + [tlv.typeTLV] + [tlv.lengthTLV] + tlv.valueTLV;
      tlv := tlv.nextTLV;
      i := i + 1;
    }
  }
}
