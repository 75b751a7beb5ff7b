/** What a router's own LSP must advertise, said of its interfaces without building it:
    every route that is not nil and every UP adjacency, each at the place given by how
    many stand before it. */
module Adverts {
  import opened Bytes
  import opened Wrappers
  import opened TlvList
  import opened Lsps
  import opened Interfaces
  import opened Nodes

  // ----- Counting -------------------------------------------------------------------------

  ghost function Less(s: set<nat>, j: nat): set<nat> {
    set k | k in s && k < j
  }

  /** The routes of an interface that are not nil, */
  ghost function Somes(routes: seq<Option<Route>>): set<nat> {
    set j | 0 <= j < |routes| && routes[j].Some?
  }

  /** and all of them, by interface and route. */
  ghost function Slots(intfs: seq<Intf>): set<(nat, nat)> {
    set i, j | 0 <= i < |intfs| && 0 <= j < |intfs[i].routes| && intfs[i].routes[j].Some? :: (i, j)
  }

  /** Those that stand before slot x, */
  ghost function Earlier(intfs: seq<Intf>, x: (nat, nat)): set<(nat, nat)> {
    set y | y in Slots(intfs) && (y.0 < x.0 || (y.0 == x.0 && y.1 < x.1))
  }

  /** and how many they are. */
  ghost function SlotIndex(intfs: seq<Intf>, x: (nat, nat)): nat {
    |Earlier(intfs, x)|
  }

  ghost function Ups(intfs: seq<Intf>): set<nat> {
    set i | 0 <= i < |intfs| && intfs[i].adj.state == UP
  }

  // ----- The two TLVs ------------------------------------------------------------------------

  /** Address, mask and metric 10 of every route that is not nil, in order, and no more. */
  ghost predicate ListsRoutes(t: Tlv, intfs: seq<Intf>) {
    && t.typeTLV == 128 && |t.valueTLV| == 12 * |Slots(intfs)| && t.lengthTLV == |t.valueTLV| % 256
    && forall x :: x in Slots(intfs) ==>
         var k := 12 * SlotIndex(intfs, x);
         k + 12 <= |t.valueTLV| && t.valueTLV[k..k + 12] ==
           intfs[x.0].routes[x.1].value.ip + intfs[x.0].routes[x.1].value.mask + [0, 0, 0, 10]
  }

  /** A zero byte, then metric 10, neighbour and pseudonode 0 of every UP adjacency, in
      order, and no more. */
  ghost predicate ListsNeighbors(t: Tlv, intfs: seq<Intf>) {
    && t.typeTLV == 2 && |t.valueTLV| == 1 + 11 * |Ups(intfs)| && t.lengthTLV == |t.valueTLV| % 256
    && t.valueTLV[0] == 0
    && forall i :: i in Ups(intfs) ==>
         var k := 1 + 11 * |Less(Ups(intfs), i)|;
         k + 11 <= |t.valueTLV| && t.valueTLV[k..k + 11] == [0, 0, 0, 10] + intfs[i].adj.neighborSystemID + [0]
  }

  ghost predicate Advertises(ts: seq<Tlv>, intfs: seq<Intf>) {
    |ts| == 2 && ListsRoutes(ts[0], intfs) && ListsNeighbors(ts[1], intfs)
  }

  // ----- Routes ------------------------------------------------------------------------------

  lemma {:induction false} PresentAt(routes: seq<Option<Route>>, j: nat)
    ensures |Present(routes)| == |Somes(routes)|
    ensures j in Somes(routes) ==>
      |Less(Somes(routes), j)| < |Present(routes)| && Present(routes)[|Less(Somes(routes), j)|] == routes[j].value
  {
    if routes == [] {
      assert Somes(routes) == {};
    } else {
      var last := |routes| - 1;
      var init := routes[..last];
      PresentAt(init, j);
      if routes[last].Some? {
        assert Somes(routes) == Somes(init) + {last};
      } else {
        assert Somes(routes) == Somes(init);
      }
      if j == last {
        assert Less(Somes(routes), j) == Somes(init);
      } else if j < last {
        assert Less(Somes(routes), j) == Less(Somes(init), j);
      }
    }
  }

  ghost function Row(i: nat, s: set<nat>): set<(nat, nat)> {
    set j | j in s :: (i, j)
  }

  lemma {:induction false} RowSize(i: nat, s: set<nat>)
    ensures |Row(i, s)| == |s|
  {
    if j :| j in s {
      RowSize(i, s - {j});
      assert Row(i, s) == Row(i, s - {j}) + {(i, j)};
    } else {
      assert Row(i, s) == {};
    }
  }

  lemma SlotsSnoc(intfs: seq<Intf>)
    requires intfs != []
    ensures var last := |intfs| - 1;
      && Slots(intfs) == Slots(intfs[..last]) + Row(last, Somes(intfs[last].routes))
      && Slots(intfs[..last]) !! Row(last, Somes(intfs[last].routes))
  {
  }

  /** A slot of an interface but the last: nothing of the last stands before it. */
  lemma EarlierInit(intfs: seq<Intf>, x: (nat, nat))
    requires intfs != [] && x.0 < |intfs| - 1
    ensures Earlier(intfs, x) == Earlier(intfs[..|intfs| - 1], x)
  {
    SlotsSnoc(intfs);
  }

  /** A slot of the last interface: all of the others stand before it. */
  lemma EarlierLast(intfs: seq<Intf>, x: (nat, nat))
    requires intfs != [] && x.0 == |intfs| - 1
    ensures var last := |intfs| - 1;
      && Earlier(intfs, x) == Slots(intfs[..last]) + Row(last, Less(Somes(intfs[last].routes), x.1))
      && Slots(intfs[..last]) !! Row(last, Less(Somes(intfs[last].routes), x.1))
  {
    SlotsSnoc(intfs);
  }

  lemma SlotIndexSnoc(intfs: seq<Intf>, x: (nat, nat))
    requires intfs != [] && x in Slots(intfs)
    ensures var last := |intfs| - 1;
      SlotIndex(intfs, x) ==
      if x.0 < last then SlotIndex(intfs[..last], x)
      else |Slots(intfs[..last])| + |Less(Somes(intfs[last].routes), x.1)|
  {
    var last := |intfs| - 1;
    if x.0 < last {
      EarlierInit(intfs, x);
    } else {
      EarlierLast(intfs, x);
      RowSize(last, Less(Somes(intfs[last].routes), x.1));
    }
  }

  lemma {:induction false} AllRoutesAt(intfs: seq<Intf>, x: (nat, nat))
    ensures |AllRoutes(intfs)| == |Slots(intfs)|
    ensures x in Slots(intfs) ==>
      SlotIndex(intfs, x) < |AllRoutes(intfs)| && AllRoutes(intfs)[SlotIndex(intfs, x)] == intfs[x.0].routes[x.1].value
  {
    if intfs == [] {
      assert Slots(intfs) == {};
    } else {
      var last := |intfs| - 1;
      AllRoutesAt(intfs[..last], x);
      SlotsSnoc(intfs);
      RowSize(last, Somes(intfs[last].routes));
      PresentAt(intfs[last].routes, x.1);
      if x in Slots(intfs) {
        SlotIndexSnoc(intfs, x);
      }
    }
  }

  lemma RoutesListed(intfs: seq<Intf>)
    ensures ListsRoutes(ReachTlv(AllRoutes(intfs)), intfs)
  {
    var t := ReachTlv(AllRoutes(intfs));
    AllRoutesAt(intfs, (0, 0));
    ReachTlvFits(AllRoutes(intfs));
    forall x | x in Slots(intfs)
      ensures var k := 12 * SlotIndex(intfs, x);
        k + 12 <= |t.valueTLV| && t.valueTLV[k..k + 12] ==
          intfs[x.0].routes[x.1].value.ip + intfs[x.0].routes[x.1].value.mask + [0, 0, 0, 10]
    {
      AllRoutesAt(intfs, x);
      BlockAt(RouteEntries(AllRoutes(intfs)), 12, SlotIndex(intfs, x));
    }
  }

  /** Decoded, the TLV gives as many prefixes as there are routes that are not nil, if
      there are at most 21, */
  lemma RoutesCounted(t: Tlv, intfs: seq<Intf>)
    requires ListsRoutes(t, intfs) && |Slots(intfs)| <= 21
    ensures PrefixCount(t) == |Slots(intfs)| && 12 * PrefixCount(t) <= |t.valueTLV|
  {
  }

  /** and each at its place. */
  lemma RoutesDecoded(t: Tlv, intfs: seq<Intf>, x: (nat, nat))
    requires ListsRoutes(t, intfs) && |Slots(intfs)| <= 21 && x in Slots(intfs)
    requires PrefixCount(t) == |Slots(intfs)| && 12 * PrefixCount(t) <= |t.valueTLV|
    ensures SlotIndex(intfs, x) < |Prefixes(t)|
    ensures Prefixes(t)[SlotIndex(intfs, x)] == intfs[x.0].routes[x.1].value
  {
    var k := SlotIndex(intfs, x);
    assert 12 * k + 12 <= |t.valueTLV|;
    RouteFields(t.valueTLV, 12 * k, intfs[x.0].routes[x.1].value);
  }

  lemma RouteFields(v: seq<byte>, k: nat, r: Route)
    requires k + 12 <= |v| && v[k..k + 12] == r.ip + r.mask + [0, 0, 0, 10]
    ensures v[k..k + 4] == r.ip && v[k + 4..k + 8] == r.mask
  {
    SliceOfSlice(v, k, 12, 0, 4);
    SliceOfSlice(v, k, 12, 4, 8);
  }

  // ----- Neighbours --------------------------------------------------------------------------

  lemma {:induction false} UpIdsAt(intfs: seq<Intf>, i: nat)
    ensures |UpIds(intfs)| == |Ups(intfs)|
    ensures i in Ups(intfs) ==>
      |Less(Ups(intfs), i)| < |UpIds(intfs)| && UpIds(intfs)[|Less(Ups(intfs), i)|] == intfs[i].adj.neighborSystemID
  {
    if intfs == [] {
      assert Ups(intfs) == {};
    } else {
      var last := |intfs| - 1;
      var init := intfs[..last];
      UpIdsAt(init, i);
      if intfs[last].adj.state == UP {
        assert Ups(intfs) == Ups(init) + {last};
      } else {
        assert Ups(intfs) == Ups(init);
      }
      if i == last {
        assert Less(Ups(intfs), i) == Ups(init);
      } else if i < last {
        assert Less(Ups(intfs), i) == Less(Ups(init), i);
      }
    }
  }

  lemma NeighborListed(intfs: seq<Intf>, i: nat)
    requires i in Ups(intfs)
    ensures var v, k := NeighborTlv(UpIds(intfs)).valueTLV, 1 + 11 * |Less(Ups(intfs), i)|;
      k + 11 <= |v| && v[k..k + 11] == [0, 0, 0, 10] + intfs[i].adj.neighborSystemID + [0]
  {
    UpIdsAt(intfs, i);
    var k := |Less(Ups(intfs), i)|;
    NeighborTlvBytes(UpIds(intfs), k);
    assert NeighborEntry(UpIds(intfs)[k]) == [0, 0, 0, 10] + intfs[i].adj.neighborSystemID + [0];
  }

  lemma NeighborsListed(intfs: seq<Intf>)
    ensures ListsNeighbors(NeighborTlv(UpIds(intfs)), intfs)
  {
    UpIdsAt(intfs, 0);
    NeighborTlvIsReadable(UpIds(intfs));
    forall i | i in Ups(intfs)
      ensures var v, k := NeighborTlv(UpIds(intfs)).valueTLV, 1 + 11 * |Less(Ups(intfs), i)|;
        k + 11 <= |v| && v[k..k + 11] == [0, 0, 0, 10] + intfs[i].adj.neighborSystemID + [0]
    {
      NeighborListed(intfs, i);
    }
  }

  lemma OwnTlvsAdvertise(intfs: seq<Intf>)
    ensures Advertises(OwnTlvs(intfs), intfs)
  {
    RoutesListed(intfs);
    NeighborsListed(intfs);
  }
}
