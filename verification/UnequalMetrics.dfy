/** Unequal metrics can make recorded next hops wrong, because lowering a tentative
    distance keeps the next hop first recorded. The example: routers 1 and 2, whose own
    links all have metric 10, and seven other systems whose LSPs list other metrics. For
    system 9, router 1 forwards to 2 and router 2 forwards to 1. */
module UnequalMetrics {
  import opened Bytes
  import opened Graphs
  import opened Interfaces
  import opened Spf
  import opened NextHop

  /** A system's number, 0 to 9; number 0 is not used. */
  type number = x: int | 0 <= x < 10

  datatype Listed = Listed(to: number, metric: uint32)

  /** What each system lists as its neighbours: eleven links, the same both ways. */
  function LinksOf(i: number): (ls: seq<Listed>)
    ensures |ls| <= 3
    ensures forall k :: 0 <= k < |ls| ==> 0 < ls[k].to != i && ls[k].metric <= 100
    ensures forall j, k :: 0 <= j < k < |ls| ==> ls[j].to != ls[k].to
  {
    match i
    case 0 => []
    case 1 => [Listed(2, 10), Listed(3, 10)]
    case 2 => [Listed(1, 10), Listed(5, 10)]
    case 3 => [Listed(1, 10), Listed(4, 11), Listed(8, 100)]
    case 4 => [Listed(3, 11), Listed(7, 1)]
    case 5 => [Listed(2, 10), Listed(6, 11), Listed(7, 100)]
    case 6 => [Listed(5, 11), Listed(8, 1)]
    case 7 => [Listed(5, 100), Listed(4, 1), Listed(9, 1)]
    case 8 => [Listed(3, 100), Listed(6, 1), Listed(9, 1)]
    case 9 => [Listed(7, 1), Listed(8, 1)]
  }

  // ----- The graph, for any names of the systems ------------------------------------------------

  ghost predicate Names(ns: seq<string>) {
    |ns| == 10 && forall i, j :: 0 <= i < j < 10 ==> ns[i] != ns[j]
  }

  /** e is the k-th link that system i lists. */
  ghost predicate IsListed(ns: seq<string>, i: number, k: nat, e: Edge)
    requires |ns| == 10
  {
    k < |LinksOf(i)| && e == Edge(ns[i], ns[LinksOf(i)[k].to], LinksOf(i)[k].metric)
  }

  ghost function Example(ns: seq<string>): Graph
    requires |ns| == 10
  {
    set i, k | 0 <= i < 10 && 0 <= k < 3 && k < |LinksOf(i)| ::
      Edge(ns[i], ns[LinksOf(i)[k].to], LinksOf(i)[k].metric)
  }

  lemma ListedInExample(ns: seq<string>, i: number, k: nat, e: Edge)
    requires |ns| == 10 && IsListed(ns, i, k, e)
    ensures e in Example(ns)
  {
  }

  lemma ExampleIsListed(ns: seq<string>, e: Edge) returns (i: number, k: nat)
    requires |ns| == 10 && e in Example(ns)
    ensures IsListed(ns, i, k, e)
  {
    i, k :| k < 3 && k < |LinksOf(i)| && e == Edge(ns[i], ns[LinksOf(i)[k].to], LinksOf(i)[k].metric);
  }

  lemma LinkInto(ns: seq<string>, u: string, v: number) returns (i: number, k: nat)
    requires Names(ns) && HasEdge(Example(ns), u, ns[v])
    ensures k < |LinksOf(i)| && LinksOf(i)[k].to == v && u == ns[i]
  {
    var m: nat :| Edge(u, ns[v], m) in Example(ns);
    i, k := ExampleIsListed(ns, Edge(u, ns[v], m));
  }

  // ----- Distances from 1 -------------------------------------------------------------------

  function From1(i: number): nat {
    match i
    case 0 => 0
    case 1 => 0
    case 2 => 10
    case 3 => 10
    case 4 => 21
    case 5 => 20
    case 6 => 25
    case 7 => 22
    case 8 => 24
    case 9 => 23
  }

  lemma NoShortcut(i: number, k: nat)
    requires k < |LinksOf(i)|
    ensures From1(LinksOf(i)[k].to) <= From1(i) + LinksOf(i)[k].metric
  {
  }

  /** The system before i on a shortest path from 1, and where that one lists i. */
  function Before(i: number): (number, nat) {
    match i
    case 0 => (0, 0)
    case 1 => (0, 0)
    case 2 => (1, 0)
    case 3 => (1, 1)
    case 4 => (3, 1)
    case 5 => (2, 1)
    case 6 => (8, 1)
    case 7 => (4, 1)
    case 8 => (9, 1)
    case 9 => (7, 2)
  }

  lemma BeforeIsTight(i: number)
    requires i > 1
    ensures var (p, k) := Before(i);
      p > 0 && k < |LinksOf(p)| && LinksOf(p)[k].to == i && From1(p) + LinksOf(p)[k].metric == From1(i) > From1(p)
  {
  }

  lemma {:induction false} Reaches(ns: seq<string>, i: number)
    requires |ns| == 10 && i > 0
    ensures Attained(Example(ns), ns[1], ns[i], From1(i))
    decreases From1(i)
  {
    if i == 1 {
      assert Walk(Example(ns), ns[1], ns[1], []) && Cost([]) == 0;
    } else {
      BeforeIsTight(i);
      var (p, k) := Before(i);
      Reaches(ns, p);
      var e := Edge(ns[p], ns[i], LinksOf(p)[k].metric);
      ListedInExample(ns, p, k, e);
      AttainedVia(Example(ns), ns[1], e, From1(p));
    }
  }

  /** The number of a name. */
  function Find(ns: seq<string>, x: string): nat {
    if ns == [] || ns[0] == x then 0 else 1 + Find(ns[1..], x)
  }

  lemma {:induction false} FindIs(ns: seq<string>, i: nat)
    requires i < |ns| && forall i, j :: 0 <= i < j < |ns| ==> ns[i] != ns[j]
    ensures Find(ns, ns[i]) == i
  {
    if i > 0 {
      FindIs(ns[1..], i - 1);
    }
  }

  function LabelOf(ns: seq<string>, x: string): int {
    if Find(ns, x) < 10 then From1(Find(ns, x)) else 0
  }

  lemma {:induction false} ExampleDistance(ns: seq<string>, i: number)
    requires Names(ns) && i > 0
    ensures IsDistance(Example(ns), ns[1], ns[i], From1(i))
  {
    var g := Example(ns);
    Reaches(ns, i);
    FindIs(ns, 1);
    FindIs(ns, i);
    forall e | e in g ensures LabelOf(ns, e.to) <= LabelOf(ns, e.from) + e.metric {
      var j, k := ExampleIsListed(ns, e);
      FindIs(ns, j);
      FindIs(ns, LinksOf(j)[k].to);
      NoShortcut(j, k);
    }
    forall w | Walk(g, ns[1], ns[i], w) ensures From1(i) <= Cost(w) {
      LabelsAreLowerBounds(g, ns[1], x => LabelOf(ns, x), ns[i], w);
    }
  }

  // ----- How 1 meets 9 ------------------------------------------------------------------------

  /** p lists v, and everyone else who lists v is farther from 1 than p. */
  predicate Nearest(p: number, v: number) {
    && (exists k :: 0 <= k < |LinksOf(p)| && LinksOf(p)[k].to == v)
    && forall i, k :: 0 <= i < 10 && 0 <= k < |LinksOf(i)| && LinksOf(i)[k].to == v ==>
         i == p || From1(p) < From1(i)
  }

  lemma NearestTo9()
    ensures Nearest(7, 9)
  {
    assert LinksOf(7)[2].to == 9;
  }

  lemma NearestTo7()
    ensures Nearest(5, 7)
  {
    assert LinksOf(5)[2].to == 7;
  }

  lemma NearestTo5()
    ensures Nearest(2, 5)
  {
    assert LinksOf(2)[1].to == 5;
  }

  lemma OnlyDiscoverer(ns: seq<string>, p: number, v: number, u: string)
    requires Names(ns) && p > 1 && Nearest(p, v) && Discovers(Example(ns), ns[1], u, ns[v])
    ensures u == ns[p]
  {
    var g := Example(ns);
    var i, k := LinkInto(ns, u, v);
    var l :| 0 <= l < |LinksOf(p)| && LinksOf(p)[l].to == v;
    ListedInExample(ns, p, l, Edge(ns[p], ns[v], LinksOf(p)[l].metric));
    if i != p {
      ExampleDistance(ns, p);
      ExampleDistance(ns, i);
      DiscovererIsNearest(g, ns[1], u, ns[v], Edge(ns[p], ns[v], LinksOf(p)[l].metric), From1(i), From1(p));
    }
  }

  lemma StepBack(ns: seq<string>, us: seq<string>, p: number, v: number)
    requires Names(ns) && p > 1 && Nearest(p, v) && Chain(Example(ns), ns[1], us) && us[|us| - 1] == ns[v]
    ensures |us| > 1 && Chain(Example(ns), ns[1], us[..|us| - 1]) && us[|us| - 2] == ns[p]
  {
    if |us| == 1 {
      OnlyDiscoverer(ns, p, v, ns[1]);
    } else {
      ChainInit(Example(ns), ns[1], us);
      OnlyDiscoverer(ns, p, v, us[|us| - 2]);
    }
  }

  lemma DirectlyMet(ns: seq<string>, us: seq<string>)
    requires Names(ns) && Chain(Example(ns), ns[1], us) && us[|us| - 1] == ns[2]
    ensures |us| == 1
  {
    ListedInExample(ns, 1, 0, Edge(ns[1], ns[2], 10));
    if |us| > 1 {
      ChainInit(Example(ns), ns[1], us);
    }
  }

  /** Router 1 meets 9 through 2 and no other neighbour: over 5 and 7. */
  lemma MeetsThrough2(ns: seq<string>, us: seq<string>)
    requires Names(ns) && Chain(Example(ns), ns[1], us) && us[|us| - 1] == ns[9]
    ensures us[0] == ns[2]
  {
    NearestTo9();
    StepBack(ns, us, 7, 9);
    var vs := us[..|us| - 1];
    NearestTo7();
    StepBack(ns, vs, 5, 7);
    var ws := vs[..|vs| - 1];
    NearestTo5();
    StepBack(ns, ws, 2, 5);
    DirectlyMet(ns, ws[..|ws| - 1]);
  }

  // ----- Seen from 2 ------------------------------------------------------------------------

  /** The graph is symmetric in 1 and 2. */
  function M(i: number): number {
    match i
    case 0 => 0
    case 1 => 2
    case 2 => 1
    case 3 => 5
    case 4 => 6
    case 5 => 3
    case 6 => 4
    case 7 => 8
    case 8 => 7
    case 9 => 9
  }

  function Mirror(ns: seq<string>): (ms: seq<string>)
    requires |ns| == 10
    ensures |ms| == 10 && forall i: number :: ms[i] == ns[M(i)]
  {
    [ns[0], ns[2], ns[1], ns[5], ns[6], ns[3], ns[4], ns[8], ns[7], ns[9]]
  }

  lemma MirrorTable(i: number, k: nat) returns (l: nat)
    requires k < |LinksOf(i)|
    ensures l < |LinksOf(M(i))| && LinksOf(M(i))[l] == Listed(M(LinksOf(i)[k].to), LinksOf(i)[k].metric)
  {
    l := if i == 9 then 1 - k else k;
  }

  lemma MirrorInto(ns: seq<string>, e: Edge)
    requires |ns| == 10 && e in Example(Mirror(ns))
    ensures e in Example(ns)
  {
    var i, k := ExampleIsListed(Mirror(ns), e);
    var l := MirrorTable(i, k);
    ListedInExample(ns, M(i), l, e);
  }

  lemma MirrorIsSymmetry(ns: seq<string>)
    requires Names(ns)
    ensures Names(Mirror(ns)) && Mirror(Mirror(ns)) == ns && Example(Mirror(ns)) == Example(ns)
  {
    assert Mirror(Mirror(ns)) == ns;
    forall e | e in Example(Mirror(ns)) ensures e in Example(ns) {
      MirrorInto(ns, e);
    }
    forall e | e in Example(ns) ensures e in Example(Mirror(ns)) {
      MirrorInto(Mirror(ns), e);
    }
  }

  lemma From1To9(ns: seq<string>, d: int)
    requires Names(ns) && IsDistance(Example(ns), ns[1], ns[9], d)
    ensures d == 23
  {
    ExampleDistance(ns, 9);
    DistanceUnique(Example(ns), ns[1], ns[9], d, 23);
  }

  lemma From2To9(ns: seq<string>, d: int)
    requires Names(ns) && IsDistance(Example(ns), ns[2], ns[9], d)
    ensures d == 23
  {
    MirrorIsSymmetry(ns);
    From1To9(Mirror(ns), d);
  }

  lemma Link1To2(ns: seq<string>, m: nat)
    requires Names(ns) && Edge(ns[1], ns[2], m) in Example(ns)
    ensures m == 10
  {
    var i, k := ExampleIsListed(ns, Edge(ns[1], ns[2], m));
  }

  /** No shortest path from 1 to 9 starts at 2: it would be 10 shorter from there, and is
      as long. */
  lemma NotOver2(ns: seq<string>)
    requires Names(ns)
    ensures !StartsShortest(Example(ns), ns[1], ns[2], ns[9])
  {
    var g := Example(ns);
    forall m: nat, d: int | Edge(ns[1], ns[2], m) in g && IsDistance(g, ns[1], ns[9], d)
      ensures !IsDistance(g, ns[2], ns[9], d - m)
    {
      Link1To2(ns, m);
      From1To9(ns, d);
      if IsDistance(g, ns[2], ns[9], d - m) {
        From2To9(ns, d - m);
      }
    }
  }

  /** The entry for a system records the adjacency with this neighbour. */
  ghost predicate Forwards(adjs: seq<Adjacency>, paths: seq<Triple>, v: string, n: string) {
    exists i :: 1 <= i < |paths| && paths[i].systemID == v && paths[i].adj == AdjacencyTo(adjs, n)
  }

  lemma ForwardsOver2(ns: seq<string>, adjs: seq<Adjacency>, paths: seq<Triple>)
    requires Names(ns) && IsSpfResult(Example(ns), ns[1], adjs, paths)
    ensures Forwards(adjs, paths, ns[9], ns[2])
  {
    Reaches(ns, 9);
    assert Reachable(Example(ns), ns[1], ns[9]);
    var i :| 0 <= i < |paths| && paths[i].systemID == ns[9];
    assert paths[0].systemID == ns[1];
    var us := RecordedHop(Example(ns), ns[1], adjs, paths, i);
    MeetsThrough2(ns, us);
  }

  /** A forwarding loop: for 9, router 1 forwards to 2 and 2 forwards to 1, although no
      shortest path of either goes there. */
  lemma ForwardingLoop(ns: seq<string>, adjs1: seq<Adjacency>, adjs2: seq<Adjacency>, paths1: seq<Triple>, paths2: seq<Triple>)
    requires Names(ns)
    requires IsSpfResult(Example(ns), ns[1], adjs1, paths1) && IsSpfResult(Example(ns), ns[2], adjs2, paths2)
    ensures Forwards(adjs1, paths1, ns[9], ns[2]) && !StartsShortest(Example(ns), ns[1], ns[2], ns[9])
    ensures Forwards(adjs2, paths2, ns[9], ns[1]) && !StartsShortest(Example(ns), ns[2], ns[1], ns[9])
  {
    MirrorIsSymmetry(ns);
    ForwardsOver2(ns, adjs1, paths1);
    ForwardsOver2(Mirror(ns), adjs2, paths2);
    NotOver2(ns);
    NotOver2(Mirror(ns));
  }
}
