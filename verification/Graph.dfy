/** Weighted directed graphs, walks and distances: the independent meaning of
    "shortest path" that the decision process is measured against. */
module Graphs {
  datatype Edge = Edge(from: string, to: string, metric: nat)

  type Graph = set<Edge>

  function Cost(w: seq<Edge>): nat {
    if w == [] then 0 else Cost(w[..|w| - 1]) + w[|w| - 1].metric
  }

  /** w is a walk in g from src to v. */
  ghost predicate Walk(g: Graph, src: string, v: string, w: seq<Edge>)
    decreases |w|
  {
    if w == [] then v == src
    else
      var last := w[|w| - 1];
      last in g && last.to == v && Walk(g, src, last.from, w[..|w| - 1])
  }

  ghost predicate Reachable(g: Graph, src: string, v: string) {
    exists w :: Walk(g, src, v, w)
  }

  ghost predicate Attained(g: Graph, src: string, v: string, d: int) {
    exists w :: Walk(g, src, v, w) && Cost(w) == d
  }

  ghost predicate LowerBound(g: Graph, src: string, v: string, d: int) {
    forall w :: Walk(g, src, v, w) ==> d <= Cost(w)
  }

  /** d is the least total metric of any walk from src to v. */
  ghost predicate IsDistance(g: Graph, src: string, v: string, d: int) {
    Attained(g, src, v, d) && LowerBound(g, src, v, d)
  }

  lemma WalkSnoc(g: Graph, src: string, w: seq<Edge>, e: Edge)
    requires Walk(g, src, e.from, w) && e in g
    ensures Walk(g, src, e.to, w + [e]) && Cost(w + [e]) == Cost(w) + e.metric
  {
    assert (w + [e])[..|w|] == w;
  }

  lemma WalkInit(g: Graph, src: string, v: string, w: seq<Edge>)
    requires Walk(g, src, v, w) && w != []
    ensures var e := w[|w| - 1];
      && e in g && e.to == v && Walk(g, src, e.from, w[..|w| - 1])
      && Cost(w) == Cost(w[..|w| - 1]) + e.metric
  {
  }

  /** Prefixing an edge. */
  lemma {:induction false} WalkCons(g: Graph, e: Edge, v: string, w: seq<Edge>)
    requires e in g && Walk(g, e.to, v, w)
    ensures Walk(g, e.from, v, [e] + w) && Cost([e] + w) == e.metric + Cost(w)
    decreases |w|
  {
    if w == [] {
      assert [e] + w == [] + [e];
      WalkSnoc(g, e.from, [], e);
    } else {
      var x, f := w[..|w| - 1], w[|w| - 1];
      assert [e] + w == ([e] + x) + [f];
      WalkInit(g, e.to, v, w);
      WalkCons(g, e, f.from, x);
      WalkSnoc(g, e.from, [e] + x, f);
    }
  }

  /** Dropping the first edge. */
  lemma {:induction false} WalkTail(g: Graph, src: string, v: string, w: seq<Edge>)
    requires Walk(g, src, v, w) && w != []
    ensures w[0] in g && w[0].from == src && Walk(g, w[0].to, v, w[1..])
    ensures Cost(w) == w[0].metric + Cost(w[1..])
    decreases |w|
  {
    WalkInit(g, src, v, w);
    var x, f := w[..|w| - 1], w[|w| - 1];
    if x == [] {
      assert w[1..] == [];
    } else {
      WalkTail(g, src, f.from, x);
      WalkSnoc(g, w[0].to, x[1..], f);
      assert w[1..] == x[1..] + [f];
    }
  }

  lemma DistanceUnique(g: Graph, src: string, v: string, a: int, b: int)
    requires IsDistance(g, src, v, a) && IsDistance(g, src, v, b)
    ensures a == b
  {
    var x :| Walk(g, src, v, x) && Cost(x) == a;
    var y :| Walk(g, src, v, y) && Cost(y) == b;
  }

  /** A system that some walk reaches has a distance. */
  lemma {:induction false} DistanceExists(g: Graph, src: string, v: string, w: seq<Edge>) returns (d: int)
    requires Walk(g, src, v, w)
    ensures IsDistance(g, src, v, d)
    decreases Cost(w)
  {
    if x :| Walk(g, src, v, x) && Cost(x) < Cost(w) {
      d := DistanceExists(g, src, v, x);
    } else {
      d := Cost(w);
    }
  }

  lemma SelfDistance(g: Graph, src: string)
    ensures IsDistance(g, src, src, 0)
  {
    assert Walk(g, src, src, []) && Cost([]) == 0;
  }

  /** No edge beats a distance. */
  lemma EdgeRelaxed(g: Graph, src: string, e: Edge, du: int, dv: int)
    requires e in g && IsDistance(g, src, e.from, du) && IsDistance(g, src, e.to, dv)
    ensures dv <= du + e.metric
  {
    var w :| Walk(g, src, e.from, w) && Cost(w) == du;
    WalkSnoc(g, src, w, e);
  }

  /** A shortest walk arrives over an edge whose tail is at the remaining distance. */
  lemma LastEdge(g: Graph, src: string, v: string, d: int) returns (e: Edge)
    requires IsDistance(g, src, v, d) && v != src
    ensures e in g && e.to == v && IsDistance(g, src, e.from, d - e.metric)
  {
    var w :| Walk(g, src, v, w) && Cost(w) == d;
    e := w[|w| - 1];
    WalkInit(g, src, v, w);
    forall x | Walk(g, src, e.from, x)
      ensures d - e.metric <= Cost(x)
    {
      WalkSnoc(g, src, x, e);
    }
    assert Walk(g, src, e.from, w[..|w| - 1]);
  }

  /** If some walk of least cost starts with e, the rest of it is a least-cost walk. */
  lemma RestIsShortest(g: Graph, e: Edge, v: string, d: int, rest: seq<Edge>)
    requires e in g && Walk(g, e.to, v, rest) && e.metric + Cost(rest) == d
    requires LowerBound(g, e.from, v, d)
    ensures IsDistance(g, e.to, v, d - e.metric)
  {
    forall x | Walk(g, e.to, v, x)
      ensures d - e.metric <= Cost(x)
    {
      WalkCons(g, e, v, x);
    }
  }

  /** A labelling that is 0 at the source and that no link improves is a lower bound
      on the cost of every walk. */
  lemma {:induction false} LabelsAreLowerBounds(g: Graph, src: string, dist: string -> int, v: string, w: seq<Edge>)
    requires dist(src) <= 0
    requires forall e :: e in g ==> dist(e.to) <= dist(e.from) + e.metric
    requires Walk(g, src, v, w)
    ensures dist(v) <= Cost(w)
    decreases |w|
  {
    if w != [] {
      WalkInit(g, src, v, w);
      LabelsAreLowerBounds(g, src, dist, w[|w| - 1].from, w[..|w| - 1]);
    }
  }

  lemma {:induction false} WalkInLarger(g: Graph, h: Graph, src: string, v: string, w: seq<Edge>)
    requires g <= h && Walk(g, src, v, w)
    ensures Walk(h, src, v, w)
    decreases |w|
  {
    if w != [] {
      WalkInLarger(g, h, src, w[|w| - 1].from, w[..|w| - 1]);
    }
  }

  /** A walk to v uses only links from whose heads v can be reached. */
  lemma {:induction false} WalkOnTheWay(g: Graph, h: Graph, src: string, v: string, w: seq<Edge>)
    requires Walk(g, src, v, w) && forall e :: e in g && Reachable(g, e.to, v) ==> e in h
    ensures Walk(h, src, v, w)
    decreases |w|
  {
    if w != [] {
      WalkTail(g, src, v, w);
      WalkOnTheWay(g, h, w[0].to, v, w[1..]);
      WalkCons(h, w[0], v, w[1..]);
      assert w == [w[0]] + w[1..];
    }
  }

  /** Graphs with the same walks from src to v give v the same distance. */
  lemma SameWalksSameDistance(g: Graph, h: Graph, src: string, v: string, d: int)
    requires forall w :: Walk(g, src, v, w) <==> Walk(h, src, v, w)
    ensures IsDistance(g, src, v, d) <==> IsDistance(h, src, v, d)
  {
  }
}
