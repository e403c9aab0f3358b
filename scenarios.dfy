/**
 * The situations exercised by the productions' tests
 * (hypergrammar/productions/tests/), stated for whole families of inputs:
 * a ring of `E` edges around an element, a lone element, an element whose
 * boundary edges all carry the same flag. Each scenario builds the graph,
 * runs `Apply`, and states what the outcome must be; only the contracts of
 * `Apply` are used, so each one shows those contracts decide the outcome.
 */
module Scenarios {
  import opened Optional
  import opened Edges
  import opened Hypergraphs
  import opened Utils
  import opened Cycles
  import opened Production0
  import opened Production9
  import opened Production10

  /** The `E` edge joining the `i`-th vertex of the cyclic sequence `c` to
      the next one, with parameters `ps[i]`. */
  function RingEdge(c: seq<Vertex>, ps: seq<Params>, i: nat): Edge
    requires i < |c| && i < |ps|
  {
    Edge(E, Pair(c, i), ps[i])
  }

  /** The first `count` `E` edges around `c`. */
  function Arc(c: seq<Vertex>, count: int, ps: seq<Params>): set<Edge>
    requires |ps| == |c|
  {
    set i | 0 <= i < count && i < |c| :: RingEdge(c, ps, i)
  }

  /** The whole ring of `E` edges around `c`. */
  function RingEdges(c: seq<Vertex>, ps: seq<Params>): set<Edge>
    requires |ps| == |c|
  {
    Arc(c, |c|, ps)
  }

  /** The ring around `c` without its closing edge from the last vertex back
      to the first: a path. */
  function PathEdges(c: seq<Vertex>, ps: seq<Params>): set<Edge>
    requires |ps| == |c|
  {
    Arc(c, |c| - 1, ps)
  }

  /** The same parameters on each of `n` edges. */
  function Uniform(n: nat, p: Params): seq<Params>
  {
    seq(n, _ => p)
  }

  /** One `R` flag per edge. */
  function Flags(rs: seq<int>): seq<Params>
  {
    seq(|rs|, i requires 0 <= i < |rs| => map[RKey := rs[i]])
  }

  /** The flags after production 10 has marked a boundary: 0 becomes 1, any
      other value stays. */
  function Raised(rs: seq<int>): seq<int>
  {
    seq(|rs|, i requires 0 <= i < |rs| => if rs[i] == 0 then 1 else rs[i])
  }

  /** The verdict `_validate_edge` gives on a graph built with RFC `graphRfc`. */
  predicate Accepted(prodRfc: Option<Rfc>, graphRfc: Option<Rfc>, e: Edge, view: GraphView)
  {
    match prodRfc
    case Some(f) => f(e, view)
    case None => graphRfc.None? || graphRfc.value(e, view)
  }

  /** Listing distinct names once each: the set has as many elements as the
      list, each once. */
  lemma {:induction false} DistinctVertexSet(c: seq<Vertex>)
    requires Distinct(c)
    ensures multiset(c) == multiset(VertexSet(c)) && |VertexSet(c)| == |c|
    decreases |c|
  {
    if c != [] {
      var init := c[..|c| - 1];
      var x := c[|c| - 1];
      assert c == init + [x];
      assert Distinct(init);
      DistinctVertexSet(init);
      assert x !in init by {
        forall j | 0 <= j < |init| ensures init[j] != x {
          assert c[j] != c[|c| - 1];
        }
      }
      assert VertexSet(c) == VertexSet(init) + {x};
    }
  }

  /** The ring around `c` closes: `c` itself is a closed cycle. */
  lemma RingIsClosed(c: seq<Vertex>, ps: seq<Params>, edges: set<Edge>)
    requires |ps| == |c| && RingEdges(c, ps) <= edges
    ensures IsClosedCycle(edges, c)
  {
    forall i | 0 <= i < |c| ensures HasEEdge(edges, Pair(c, i)) {
      assert RingEdge(c, ps, i) in RingEdges(c, ps);
    }
  }

  /** Adding the first `count` edges around `c` one by one, as the tests do. */
  method AddArc(hg: Hypergraph, c: seq<Vertex>, count: nat, ps: seq<Params>)
    requires count <= |c| && |ps| == |c|
    modifies hg
    ensures hg.edges == old(hg.edges) + Arc(c, count, ps)
    ensures hg.nodeParameters == old(hg.nodeParameters) && hg.rfc == old(hg.rfc)
  {
    for i := 0 to count
      invariant hg.edges == old(hg.edges) + Arc(c, i, ps)
      invariant hg.nodeParameters == old(hg.nodeParameters) && hg.rfc == old(hg.rfc)
    {
      hg.AddEdge(NewEdge(E, Pair(c, i), Some(ps[i])));
      assert Arc(c, i + 1, ps) == Arc(c, i, ps) + {RingEdge(c, ps, i)};
    }
  }

  /** Production 0 on a ring of parameterless `E` edges around a `Q` edge
      with `R` = 0 (tests at test_prod_0.py): a square is rewritten exactly
      when the RFC accepts, and anything but a square is a topology error. */
  method Prod0OnRing(c: seq<Vertex>, prodRfc: Option<Rfc>, graphRfc: Option<Rfc>) returns (r: Outcome, after: set<Edge>)
    requires Distinct(c)
    ensures var quad := Edge(Q, VertexSet(c), map[RKey := 0]);
            var ring := RingEdges(c, Uniform(|c|, map[]));
            (|c| != 4 ==> r == InvalidTopology(|c|) && after == ring + {quad}) &&
            (|c| == 4 ==> (r.Rewritten? || r.NoMatch?) &&
                          (r.Rewritten? <==> Accepted(prodRfc, graphRfc, quad, GraphView(ring + {quad}, map[])))) &&
            after == if r.Rewritten? then ring + {Edge(Q, VertexSet(c), map[RKey := 1])} else ring + {quad}
  {
    var ring := RingEdges(c, Uniform(|c|, map[]));
    var hg := new Hypergraph(graphRfc);
    AddArc(hg, c, |c|, Uniform(|c|, map[]));
    var quad := NewEdge(Q, VertexSet(c), Some(map[RKey := 0]));
    hg.AddEdge(quad);
    ghost var before := hg.edges;
    ghost var view := hg.View();
    assert hg.nodeParameters == map[] && hg.rfc == graphRfc && view == GraphView(before, map[]);
    assert quad == Edge(Q, VertexSet(c), map[RKey := 0]) && before == ring + {quad};
    DistinctVertexSet(c);
    RingIsClosed(c, Uniform(|c|, map[]), before);
    assert HasBoundaryCycle(before, quad.vertices) by {
      assert Arranges(c, quad.vertices);
    }
    assert Production0.Candidates(before) == {quad};
    assert forall q :: q in before && Production0.IsCandidate(q) ==> q == quad;
    var prod := new Prod0(prodRfc);
    assert ValidateEdge(prodRfc, hg, quad) == Accepted(prodRfc, graphRfc, quad, view);
    r := prod.Apply(hg);
    after := hg.GetEdges();
    assert quad !in ring;
  }

  /** Production 9 on a graph holding one `Q` edge (test_prod_9.py): the edge
      is marked exactly when it is a candidate with six vertices that the RFC
      accepts; otherwise the graph is left as it was. */
  method Prod9OnLoneEdge(vertices: set<Vertex>, params: Params, prodRfc: Option<Rfc>, graphRfc: Option<Rfc>)
    returns (applied: bool, after: set<Edge>)
    ensures var q := Edge(Q, vertices, params);
            (applied <==> Production9.IsCandidate(q) && |vertices| == 6 && Accepted(prodRfc, graphRfc, q, GraphView({q}, map[]))) &&
            after == if applied then {Marked(q)} else {q}
  {
    var hg := new Hypergraph(graphRfc);
    var q := NewEdge(Q, vertices, Some(params));
    hg.AddEdge(q);
    var prod := new Prod9(prodRfc);
    assert hg.edges == {q} && hg.nodeParameters == map[] && hg.rfc == graphRfc;
    assert ValidateEdge(prodRfc, hg, q) == Accepted(prodRfc, graphRfc, q, GraphView({q}, map[]));
    var r := prod.Apply(hg);
    applied := r.Some?;
    after := hg.GetEdges();
  }

  /** An arrangement of a non-empty vertex set is non-empty. */
  lemma ArrangesNonEmpty(cc: seq<Vertex>, vs: set<Vertex>, v: Vertex)
    requires Arranges(cc, vs) && v in vs
    ensures |cc| > 0
  {
    assert v in multiset(vs);
    assert v in multiset(cc);
  }

  /** A vertex occurring at two positions is counted twice. */
  lemma CountTwo(p: seq<Vertex>, j: nat, k: nat)
    requires j < k < |p| && p[j] == p[k]
    ensures multiset(p)[p[j]] >= 2
  {
    assert p == p[..k] + p[k..];
    assert p[j] in p[..k];
    assert p[k..][0] == p[k];
  }

  /** An arrangement of a set lists no vertex twice. */
  lemma ArrangesDistinct(p: seq<Vertex>, vs: set<Vertex>)
    requires Arranges(p, vs)
    ensures Distinct(p) && |p| == |vs|
  {
    assert |multiset(p)| == |multiset(vs)|;
    forall j, k | 0 <= j < k < |p| ensures p[j] != p[k] {
      if p[j] == p[k] {
        CountTwo(p, j, k);
      }
    }
  }

  /** Around a cycle of distinct vertices, vertex `j` lies on pair `m` only
      when pair `m` starts or ends there. */
  lemma RingPairThrough(c: seq<Vertex>, m: nat, j: nat)
    requires Distinct(c) && m < |c| && j < |c| && c[j] in Pair(c, m)
    ensures m == j || (m + 1) % |c| == j
  {
    if c[j] == c[m] {
      DistinctIndex(c, j, m);
    } else {
      DistinctIndex(c, j, (m + 1) % |c|);
    }
  }

  /** Around a cycle of three or more distinct vertices, no two pairs are
      the same. */
  lemma RingPairInjective(c: seq<Vertex>, m: nat, j: nat)
    requires Distinct(c) && |c| >= 3 && m < |c| && j < |c| && Pair(c, m) == Pair(c, j)
    ensures m == j
  {
    var n := |c|;
    ModSmall(m + 1, n);
    ModSmall(j + 1, n);
    RingPairThrough(c, m, j);
    RingPairThrough(c, m, (j + 1) % n);
  }

  /** The index of an `E` edge of a graph made of a ring and one `Q` edge. */
  lemma RingEdgeIndex(c: seq<Vertex>, ps: seq<Params>, anchor: Edge, e: Edge) returns (m: nat)
    requires |ps| == |c| && anchor.edgeType == Q
    requires e in RingEdges(c, ps) + {anchor} && e.edgeType == E
    ensures m < |c| && e == RingEdge(c, ps, m)
  {
    m :| 0 <= m < |c| && e == RingEdge(c, ps, m);
  }

  /** In a graph made of a ring and one `Q` edge, an `E` edge through `c[j]`
      is ring edge `j` or the one before it. */
  lemma RingNeighbour(c: seq<Vertex>, ps: seq<Params>, anchor: Edge, j: nat, y: Vertex) returns (m: nat)
    requires Distinct(c) && |ps| == |c| && j < |c| && anchor.edgeType == Q
    requires HasEEdge(RingEdges(c, ps) + {anchor}, {c[j], y})
    ensures m < |c| && Pair(c, m) == {c[j], y} && (m == j || (m + 1) % |c| == j)
  {
    var e :| e in RingEdges(c, ps) + {anchor} && e.edgeType == E && e.vertices == {c[j], y};
    m := RingEdgeIndex(c, ps, anchor, e);
    RingPairThrough(c, m, j);
  }

  /** A vertex of the ring has a position in any arrangement of the ring's
      vertices. */
  lemma PositionOf(c: seq<Vertex>, cc: seq<Vertex>, j: nat) returns (i: nat)
    requires j < |c| && Arranges(cc, VertexSet(c))
    ensures i < |cc| && cc[i] == c[j]
  {
    assert c[j] in VertexSet(c);
    assert c[j] in multiset(cc);
    i :| 0 <= i < |cc| && cc[i] == c[j];
  }

  /** A closed cycle through all the vertices of a ring uses each pair of the
      ring: the two cycle pairs through `c[j]` are ring pairs through `c[j]`,
      they differ, so one of them is pair `j`. */
  lemma CycleCoversPair(c: seq<Vertex>, ps: seq<Params>, anchor: Edge, cc: seq<Vertex>, j: nat) returns (i: nat)
    requires Distinct(c) && |c| >= 3 && |ps| == |c| && j < |c| && anchor.edgeType == Q
    requires Arranges(cc, VertexSet(c)) && IsClosedCycle(RingEdges(c, ps) + {anchor}, cc)
    ensures i < |cc| && Pair(cc, i) == Pair(c, j)
  {
    var n := |c|;
    DistinctVertexSet(c);
    ArrangesDistinct(cc, VertexSet(c));
    var i0 := PositionOf(c, cc, j);
    var next := if i0 + 1 < n then i0 + 1 else 0;
    var prev := if i0 > 0 then i0 - 1 else n - 1;
    ModSmall(i0 + 1, n);
    ModSmall(prev + 1, n);
    assert Pair(cc, i0) == {c[j], cc[next]};
    assert Pair(cc, prev) == {c[j], cc[prev]};
    assert cc[next] != cc[prev];
    var m1 := RingNeighbour(c, ps, anchor, j, cc[next]);
    if m1 == j {
      i := i0;
    } else {
      var m2 := RingNeighbour(c, ps, anchor, j, cc[prev]);
      ModSmall(m1 + 1, n);
      ModSmall(m2 + 1, n);
      i := prev;
    }
  }

  /** In a graph made of a ring and one `Q` edge, a boundary collected along
      a closed cycle through the ring's vertices holds exactly the ring's
      edges. */
  lemma RingBoundaryEdges(c: seq<Vertex>, ps: seq<Params>, anchor: Edge, cc: seq<Vertex>, bs: seq<Edge>)
    requires Distinct(c) && |c| >= 3 && |ps| == |c| && anchor.edgeType == Q
    requires Arranges(cc, VertexSet(c)) && IsBoundary(RingEdges(c, ps) + {anchor}, cc, bs)
    ensures forall b :: b in bs <==> b in RingEdges(c, ps)
  {
    var edges := RingEdges(c, ps) + {anchor};
    assert IsClosedCycle(edges, cc) by {
      forall i | 0 <= i < |cc| ensures HasEEdge(edges, Pair(cc, i)) {
        assert bs[i] in edges;
      }
    }
    forall b | b in RingEdges(c, ps) ensures b in bs {
      var j :| 0 <= j < |c| && b == RingEdge(c, ps, j);
      var i := CycleCoversPair(c, ps, anchor, cc, j);
      var m := RingEdgeIndex(c, ps, anchor, bs[i]);
      RingPairInjective(c, m, j);
    }
  }

  /** Ring edge `m` needs marking iff its flag is 0, and its raised version
      is its marked copy or, when no mark is needed, the edge itself. */
  lemma RaisedRingEdge(c: seq<Vertex>, flags: seq<int>, m: nat)
    requires |flags| == |c| && m < |c|
    ensures NeedsMark(RingEdge(c, Flags(flags), m)) <==> flags[m] == 0
    ensures RingEdge(c, Flags(Raised(flags)), m) ==
            if flags[m] == 0 then Marked(RingEdge(c, Flags(flags), m)) else RingEdge(c, Flags(flags), m)
  {
    assert Flags(flags)[m] == map[RKey := flags[m]];
    assert Flags(Raised(flags))[m] == map[RKey := Raised(flags)[m]];
  }

  /** Every edge after the update on the whole ring is the anchor or a ring
      edge with its flag raised. */
  lemma PropagatedWithinRaised(c: seq<Vertex>, flags: seq<int>, anchor: Edge, bs: seq<Edge>)
    requires |flags| == |c| && anchor.edgeType == Q
    requires forall b :: b in bs <==> b in RingEdges(c, Flags(flags))
    ensures Propagated(RingEdges(c, Flags(flags)) + {anchor}, bs) <= RingEdges(c, Flags(Raised(flags))) + {anchor}
  {
    var before := RingEdges(c, Flags(flags)) + {anchor};
    forall x | x in Propagated(before, bs) ensures x in RingEdges(c, Flags(Raised(flags))) + {anchor} {
      if x in before - ToMark(bs) {
        if x != anchor {
          var m :| 0 <= m < |c| && x == RingEdge(c, Flags(flags), m);
          RaisedRingEdge(c, flags, m);
          assert x == RingEdge(c, Flags(Raised(flags)), m);
        }
      } else {
        var b :| b in ToMark(bs) && x == Marked(b);
        var m :| 0 <= m < |c| && b == RingEdge(c, Flags(flags), m);
        RaisedRingEdge(c, flags, m);
        assert x == RingEdge(c, Flags(Raised(flags)), m);
      }
    }
  }

  /** Every ring edge with its flag raised, and the anchor, are present after
      the update on the whole ring. */
  lemma RaisedWithinPropagated(c: seq<Vertex>, flags: seq<int>, anchor: Edge, bs: seq<Edge>)
    requires |flags| == |c| && anchor.edgeType == Q
    requires forall b :: b in bs <==> b in RingEdges(c, Flags(flags))
    ensures RingEdges(c, Flags(Raised(flags))) + {anchor} <= Propagated(RingEdges(c, Flags(flags)) + {anchor}, bs)
  {
    var before := RingEdges(c, Flags(flags)) + {anchor};
    forall x | x in RingEdges(c, Flags(Raised(flags))) + {anchor} ensures x in Propagated(before, bs) {
      if x != anchor {
        var m :| 0 <= m < |c| && x == RingEdge(c, Flags(Raised(flags)), m);
        var b := RingEdge(c, Flags(flags), m);
        assert b in RingEdges(c, Flags(flags));
        RaisedRingEdge(c, flags, m);
        if flags[m] == 0 {
          assert b in ToMark(bs) && x == Marked(b);
        } else {
          assert x == b && b !in ToMark(bs);
        }
      }
    }
  }

  /** On a ring whose boundary is the whole ring, production 10's update
      sets to 1 exactly the flags that were 0. */
  lemma RingPropagation(c: seq<Vertex>, flags: seq<int>, anchor: Edge, bs: seq<Edge>)
    requires |flags| == |c| && anchor.edgeType == Q
    requires forall b :: b in bs <==> b in RingEdges(c, Flags(flags))
    ensures Propagated(RingEdges(c, Flags(flags)) + {anchor}, bs) == RingEdges(c, Flags(Raised(flags))) + {anchor}
  {
    PropagatedWithinRaised(c, flags, anchor, bs);
    RaisedWithinPropagated(c, flags, anchor, bs);
  }

  /** A marked boundary around a ring means every flag of the ring is 1. */
  lemma RingMarkedBoundary(c: seq<Vertex>, flags: seq<int>, anchor: Edge, cc: seq<Vertex>, bs: seq<Edge>)
    requires Distinct(c) && |c| >= 3 && |flags| == |c| && anchor.edgeType == Q
    requires MarkedBoundary(RingEdges(c, Flags(flags)) + {anchor}, VertexSet(c), cc, bs)
    ensures forall i :: 0 <= i < |c| ==> flags[i] == 1
  {
    RingBoundaryEdges(c, Flags(flags), anchor, cc, bs);
    forall i | 0 <= i < |c| ensures flags[i] == 1 {
      assert RingEdge(c, Flags(flags), i) in RingEdges(c, Flags(flags));
      var k :| 0 <= k < |bs| && bs[k] == RingEdge(c, Flags(flags), i);
    }
  }

  /** A propagation from the ring's anchor needs a flag other than 1, and
      leaves the ring with its 0 flags raised. */
  lemma RingPropagationOutcome(c: seq<Vertex>, flags: seq<int>, anchor: Edge, cc: seq<Vertex>, bs: seq<Edge>)
    requires Distinct(c) && |c| >= 3 && |flags| == |c| && anchor.edgeType == Q && anchor.vertices == VertexSet(c)
    requires Propagation(RingEdges(c, Flags(flags)) + {anchor}, anchor, cc, bs)
    ensures exists i :: 0 <= i < |c| && flags[i] != 1
    ensures Propagated(RingEdges(c, Flags(flags)) + {anchor}, bs) == RingEdges(c, Flags(Raised(flags))) + {anchor}
  {
    RingBoundaryEdges(c, Flags(flags), anchor, cc, bs);
    RingUnmarked(c, flags, bs);
    RingPropagation(c, flags, anchor, bs);
  }

  /** A boundary made of the ring's edges that is not all marked has a ring
      flag other than 1. */
  lemma RingUnmarked(c: seq<Vertex>, flags: seq<int>, bs: seq<Edge>)
    requires |flags| == |c| && !AllMarked(bs)
    requires forall b :: b in bs ==> b in RingEdges(c, Flags(flags))
    ensures exists i :: 0 <= i < |c| && flags[i] != 1
  {
    var k :| 0 <= k < |bs| && Get(bs[k].parameters, RKey) != Some(1);
    assert bs[k] in bs;
    var m :| 0 <= m < |c| && bs[k] == RingEdge(c, Flags(flags), m);
    assert flags[m] != 1;
  }

  /** Production 10 on a ring of `E` edges, edge `i` with `R` = `flags[i]`,
      around a `Q` edge with `R` = `qr` (test_prod_10.py): it applies exactly
      to a marked hexagon with a boundary flag other than 1, and then sets to
      1 the flags that are 0 and leaves every other edge as it was (with
      flags 2, say, `apply` reports success and changes nothing). */
  method Prod10OnRing(c: seq<Vertex>, qr: int, flags: seq<int>) returns (applied: bool, after: set<Edge>)
    requires Distinct(c) && |flags| == |c|
    ensures applied <==> |c| == 6 && qr == 1 && exists i :: 0 <= i < |c| && flags[i] != 1
    ensures after == RingEdges(c, Flags(if applied then Raised(flags) else flags)) + {Edge(Q, VertexSet(c), map[RKey := qr])}
  {
    var hg := new Hypergraph(None);
    AddArc(hg, c, |c|, Flags(flags));
    var anchor := NewEdge(Q, VertexSet(c), Some(map[RKey := qr]));
    hg.AddEdge(anchor);
    var before := hg.GetEdges();
    assert before == RingEdges(c, Flags(flags)) + {anchor};

    DistinctVertexSet(c);
    RingIsClosed(c, Flags(flags), before);
    assert HasBoundaryCycle(before, anchor.vertices) by {
      assert Arranges(c, anchor.vertices);
    }
    forall cc: seq<Vertex>, bs: seq<Edge> | MarkedBoundary(before, anchor.vertices, cc, bs) && |c| == 6
      ensures forall i :: 0 <= i < |c| ==> flags[i] == 1
    {
      RingMarkedBoundary(c, flags, anchor, cc, bs);
    }

    var prod := new Prod10();
    var r := prod.Apply(hg);
    applied := r.Some?;
    after := hg.GetEdges();

    if r.Some? {
      ghost var q: Edge, cc: seq<Vertex>, bs: seq<Edge> :| Propagation(before, q, cc, bs) && hg.edges == Propagated(before, bs);
      assert q == anchor;
      RingPropagationOutcome(c, flags, anchor, cc, bs);
    }
  }

  /** On a path, the only pair through the first vertex joins it to the
      second. */
  lemma PathPairAtStart(c: seq<Vertex>, j: nat)
    requires Distinct(c) && |c| >= 3 && j < |c| - 1 && c[0] in Pair(c, j)
    ensures Pair(c, j) == {c[0], c[1]}
  {
    assert (j + 1) % |c| == j + 1;
    assert c[0] != c[j + 1];
    assert j == 0;
  }

  /** A path is not a closed cycle, whatever order its vertices are put in:
      at the first vertex of the path, one of the two cycle pairs through it
      must avoid the second vertex, and no edge spans that pair. */
  lemma PathHasNoBoundaryCycle(c: seq<Vertex>, ps: seq<Params>, anchor: Edge)
    requires Distinct(c) && |c| >= 3 && |ps| == |c| && anchor.edgeType == Q
    ensures !HasBoundaryCycle(PathEdges(c, ps) + {anchor}, VertexSet(c))
  {
    var edges := PathEdges(c, ps) + {anchor};
    DistinctVertexSet(c);
    forall q | Arranges(q, VertexSet(c)) ensures !IsClosedCycle(edges, q) {
      ArrangesDistinct(q, VertexSet(c));
      var n := |q|;
      assert c[0] in multiset(q);
      var i :| 0 <= i < n && q[i] == c[0];
      var next := if i + 1 < n then i + 1 else 0;
      var prev := if i > 0 then i - 1 else n - 1;
      ModSmall(i + 1, n);
      ModSmall(prev + 1, n);
      assert Pair(q, i) == {c[0], q[next]};
      assert Pair(q, prev) == {c[0], q[prev]};
      assert q[next] != c[0] && q[prev] != c[0] && q[next] != q[prev];
      var k := if q[next] != c[1] then i else prev;
      assert c[1] !in Pair(q, k) - {c[0]};
      forall e | e in edges && e.edgeType == E ensures e.vertices != Pair(q, k) {
        if c[0] in e.vertices {
          var j :| 0 <= j < |c| - 1 && j < |c| && e == RingEdge(c, ps, j);
          PathPairAtStart(c, j);
        }
      }
      assert !HasEEdge(edges, Pair(q, k));
    }
  }

  /** Production 0 on a ring missing its closing edge around a `Q` edge with
      `R` = 0 (test_prod_0.py): a square is left alone, anything else is a
      topology error; the graph never changes. */
  method Prod0OnPath(c: seq<Vertex>, prodRfc: Option<Rfc>, graphRfc: Option<Rfc>) returns (r: Outcome, after: set<Edge>)
    requires Distinct(c) && |c| >= 3
    ensures |c| == 4 ==> r.NoMatch?
    ensures |c| != 4 ==> r == InvalidTopology(|c|)
    ensures after == PathEdges(c, Uniform(|c|, map[])) + {Edge(Q, VertexSet(c), map[RKey := 0])}
  {
    var hg := new Hypergraph(graphRfc);
    AddArc(hg, c, |c| - 1, Uniform(|c|, map[]));
    var quad := NewEdge(Q, VertexSet(c), Some(map[RKey := 0]));
    hg.AddEdge(quad);
    ghost var before := hg.edges;
    assert before == PathEdges(c, Uniform(|c|, map[])) + {quad};
    DistinctVertexSet(c);
    PathHasNoBoundaryCycle(c, Uniform(|c|, map[]), quad);
    assert Production0.Candidates(before) == {quad};
    assert forall q :: q in before && Production0.IsCandidate(q) ==> q == quad;
    var prod := new Prod0(prodRfc);
    r := prod.Apply(hg);
    after := hg.GetEdges();
  }

  /** Production 10 on a ring missing its closing edge around a `Q` edge
      with `R` = 1 (test_prod_10.py): whatever the flags, nothing applies. */
  method Prod10OnPath(c: seq<Vertex>, flags: seq<int>) returns (applied: bool)
    requires Distinct(c) && |c| >= 3 && |flags| == |c|
    ensures !applied
  {
    var hg := new Hypergraph(None);
    AddArc(hg, c, |c| - 1, Flags(flags));
    var anchor := NewEdge(Q, VertexSet(c), Some(map[RKey := 1]));
    hg.AddEdge(anchor);
    ghost var before := hg.edges;
    assert before == PathEdges(c, Flags(flags)) + {anchor};
    PathHasNoBoundaryCycle(c, Flags(flags), anchor);
    assert forall q :: q in before && IsAnchor(q) ==> q == anchor;
    var prod := new Prod10();
    var r := prod.Apply(hg);
    applied := r.Some?;
  }
}
