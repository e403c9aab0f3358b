/**
 * Production 10 (hypergrammar/productions/prod_10.py): propagate a refinement
 * mark from a hexagonal element to its boundary.
 *
 * An anchor is a `Q` edge whose `R` is present and 1. For the first anchor (in
 * the edge set's iteration order) with six vertices, a closed cycle of `E`
 * edges through those vertices, and a boundary not already entirely marked,
 * every boundary edge whose `R` is 0 or missing is replaced by its copy with
 * `R` set to 1, and the graph is returned.
 */
module Production10 {
  import opened Optional
  import opened Edges
  import opened Hypergraphs
  import opened Cycles

  /** `Q` edge with `R` present and equal to 1. */
  predicate IsAnchor(e: Edge): (b: bool)
    ensures b <==> e.edgeType == Q && RKey in e.parameters && e.parameters[RKey] == 1
  {
    e.edgeType == Q && Get(e.parameters, RKey) == Some(1)
  }

  /** Every boundary edge already has `R` present and equal to 1. */
  predicate AllMarked(bs: seq<Edge>): (b: bool)
    ensures b <==> forall x :: x in bs ==> RKey in x.parameters && x.parameters[RKey] == 1
  {
    forall i :: 0 <= i < |bs| ==> Get(bs[i].parameters, RKey) == Some(1)
  }

  /** An edge the update rewrites: `R` is 0 or missing. */
  predicate NeedsMark(e: Edge): (b: bool)
    ensures b <==> RKey !in e.parameters || e.parameters[RKey] == 0
  {
    GetOr(e.parameters, RKey, 0) == 0
  }

  /** The boundary edges the update rewrites. */
  function ToMark(bs: seq<Edge>): set<Edge>
  {
    set b | b in bs && NeedsMark(b)
  }

  /** The marked copies of a set of edges. */
  function MarkedSet(es: set<Edge>): set<Edge>
  {
    set b | b in es :: Marked(b)
  }

  /** The edge set after the update along a boundary. */
  function Propagated(edges: set<Edge>, bs: seq<Edge>): set<Edge>
  {
    (edges - ToMark(bs)) + MarkedSet(ToMark(bs))
  }

  /** Anchor `q`, the closed cycle `c` found for its vertices and the boundary
      `bs` collected along it, with at least one boundary edge not marked. */
  ghost predicate Propagation(edges: set<Edge>, q: Edge, c: seq<Vertex>, bs: seq<Edge>)
  {
    q in edges && IsAnchor(q) && |q.vertices| == 6 &&
    Arranges(c, q.vertices) && IsClosedCycle(edges, c) && IsBoundary(edges, c, bs) && !AllMarked(bs)
  }

  /** A closed cycle through `vs` whose boundary is entirely marked. */
  ghost predicate MarkedBoundary(edges: set<Edge>, vs: set<Vertex>, c: seq<Vertex>, bs: seq<Edge>)
  {
    Arranges(c, vs) && IsClosedCycle(edges, c) && IsBoundary(edges, c, bs) && AllMarked(bs)
  }

  class Prod10 {
    constructor ()
    {
    }

    method Apply(graph: Hypergraph) returns (r: Option<Hypergraph>)
      modifies graph
      ensures r.Some? ==>
        r.value == graph &&
        (exists q, c, bs :: Propagation(old(graph.edges), q, c, bs) && graph.edges == Propagated(old(graph.edges), bs)) &&
        graph.nodeParameters == old(graph.nodeParameters) && graph.rfc == old(graph.rfc)
      ensures r.None? ==>
        unchanged(graph) &&
        forall q :: q in old(graph.edges) && IsAnchor(q) && |q.vertices| == 6 && HasBoundaryCycle(old(graph.edges), q.vertices) ==>
          exists c, bs :: MarkedBoundary(old(graph.edges), q.vertices, c, bs)
    {
      var qEdges := set e | e in graph.GetEdges() && e.edgeType == Q && Get(e.parameters, RKey) == Some(1);

      var rest := qEdges;
      while rest != {}
        invariant rest <= qEdges
        invariant unchanged(graph)
        invariant forall q :: q in qEdges && q !in rest && |q.vertices| == 6 && HasBoundaryCycle(graph.edges, q.vertices) ==>
          exists c, bs :: MarkedBoundary(graph.edges, q.vertices, c, bs)
        decreases rest
      {
        var qEdge :| qEdge in rest;
        rest := rest - {qEdge};

        var vertices := ListVertices(qEdge.vertices);
        if |vertices| != 6 {
          continue;
        }

        var validCycle := FindCycle(graph.GetEdges(), vertices);
        if validCycle.None? {
          NoCycleFromPermutations(graph.edges, qEdge.vertices, vertices);
          continue;
        }
        var cycle := validCycle.value;

        var boundaryEdges := GetEdgesFromCycle(graph.GetEdges(), cycle);

        if AllMarked(boundaryEdges) {
          assert MarkedBoundary(graph.edges, qEdge.vertices, cycle, boundaryEdges);
          continue;
        }

        assert Propagation(graph.edges, qEdge, cycle, boundaryEdges);
        Update(graph, boundaryEdges);
        return Some(graph);
      }
      return None;
    }
  }

  /** Step 5 of `apply`: rewrite, in boundary order, each boundary edge whose
      `R` is 0 or missing. */
  method Update(graph: Hypergraph, boundaryEdges: seq<Edge>)
    requires forall b :: b in boundaryEdges ==> b.edgeType == E
    modifies graph
    ensures graph.edges == Propagated(old(graph.edges), boundaryEdges)
    ensures graph.nodeParameters == old(graph.nodeParameters) && graph.rfc == old(graph.rfc)
  {
    ghost var before := graph.edges;
    ghost var done: set<Edge> := {};
    for i := 0 to |boundaryEdges|
      invariant done == ToMark(boundaryEdges[..i])
      invariant graph.edges == (before - done) + MarkedSet(done)
      invariant graph.nodeParameters == old(graph.nodeParameters) && graph.rfc == old(graph.rfc)
    {
      var edge := boundaryEdges[i];
      assert boundaryEdges[..i + 1] == boundaryEdges[..i] + [edge];
      if GetOr(edge.parameters, RKey, 0) == 0 {
        var newParams := edge.parameters[RKey := 1];
        var newE := NewEdge(E, edge.vertices, Some(newParams));
        assert newE == Marked(edge) by { MarkedCopy(edge); }
        MarkStep(before, done, edge);
        graph.RemoveEdge(edge);
        graph.AddEdge(newE);
        done := done + {edge};
      }
    }
    assert boundaryEdges[..|boundaryEdges|] == boundaryEdges;
  }

  /** One step of the update: a marked copy never needs a mark, so removing
      an unmarked edge leaves the copies made so far in place. */
  lemma MarkStep(before: set<Edge>, done: set<Edge>, b: Edge)
    requires NeedsMark(b)
    ensures ((before - done) + MarkedSet(done)) - {b} + {Marked(b)} ==
            (before - (done + {b})) + MarkedSet(done + {b})
  {
    MarkedCopy(b);
    forall m | m in MarkedSet(done) ensures m != b {
      var d :| d in done && m == Marked(d);
      MarkedCopy(d);
    }
    assert MarkedSet(done + {b}) == MarkedSet(done) + {Marked(b)};
  }

  /** When no ordering of the listed vertices is a closed cycle, the anchor's
      vertex set has no boundary cycle. */
  lemma NoCycleFromPermutations(edges: set<Edge>, vs: set<Vertex>, vertices: seq<Vertex>)
    requires Arranges(vertices, vs)
    requires forall p :: multiset(p) == multiset(vertices) ==> !IsClosedCycle(edges, p)
    ensures !HasBoundaryCycle(edges, vs)
  {
    forall p | Arranges(p, vs) ensures !IsClosedCycle(edges, p) {
      assert multiset(p) == multiset(vertices);
    }
  }

  /** The update touches only `E` edges: every `Q` edge, the anchor included,
      is present afterwards exactly when it was before. */
  lemma PropagationKeepsQEdges(edges: set<Edge>, q: Edge, c: seq<Vertex>, bs: seq<Edge>)
    requires Propagation(edges, q, c, bs)
    ensures forall x: Edge :: x.edgeType == Q ==> (x in Propagated(edges, bs) <==> x in edges)
    ensures q in Propagated(edges, bs)
  {
    forall b | b in ToMark(bs) ensures b.edgeType == E && Marked(b).edgeType == E {
      var i :| 0 <= i < |bs| && bs[i] == b;
      MarkedCopy(b);
    }
  }

  /** The update never lowers a flag: an edge that disappears is a boundary
      edge with `R` 0 or missing whose copy with `R` = 1 is present; an edge
      that appears is such a copy; and each boundary position ends up with
      its marked copy, or keeps its edge when that needed no mark. */
  lemma PropagationRaisesFlags(edges: set<Edge>, q: Edge, c: seq<Vertex>, bs: seq<Edge>)
    requires Propagation(edges, q, c, bs)
    ensures forall x :: x in edges && x !in Propagated(edges, bs) ==>
      x in bs && NeedsMark(x) && Marked(x) in Propagated(edges, bs) && Get(Marked(x).parameters, RKey) == Some(1)
    ensures forall y :: y in Propagated(edges, bs) && y !in edges ==>
      exists x :: x in bs && NeedsMark(x) && y == Marked(x)
    ensures forall i :: 0 <= i < |bs| ==>
      (if NeedsMark(bs[i]) then Marked(bs[i]) else bs[i]) in Propagated(edges, bs)
  {
    forall x | x in edges && x !in Propagated(edges, bs)
      ensures x in bs && NeedsMark(x) && Marked(x) in Propagated(edges, bs) && Get(Marked(x).parameters, RKey) == Some(1)
    {
      MarkedCopy(x);
    }
    forall i | 0 <= i < |bs|
      ensures (if NeedsMark(bs[i]) then Marked(bs[i]) else bs[i]) in Propagated(edges, bs)
    {
      assert bs[i] in bs && bs[i] in edges;
    }
  }

  /** The returned graph differs from the input exactly when some boundary
      edge has `R` 0 or missing. With a boundary edge whose `R` is some other
      value (2, say) and none 0 or missing, the anchor passes the
      "already marked" test, `apply` returns the graph, and nothing changed. */
  lemma PropagationChangesIffSomeUnmarked(edges: set<Edge>, q: Edge, c: seq<Vertex>, bs: seq<Edge>)
    requires Propagation(edges, q, c, bs)
    ensures Propagated(edges, bs) == edges <==> ToMark(bs) == {}
  {
    if ToMark(bs) != {} {
      var b :| b in ToMark(bs);
      assert b !in MarkedSet(ToMark(bs)) by {
        forall m | m in MarkedSet(ToMark(bs)) ensures m != b {
          var d :| d in ToMark(bs) && m == Marked(d);
          MarkedCopy(d);
        }
      }
      assert b !in Propagated(edges, bs);
      var i :| 0 <= i < |bs| && bs[i] == b;
      assert b in edges;
    } else {
      assert MarkedSet(ToMark(bs)) == {};
    }
  }

  /** `E` edges still waiting for a mark. */
  function Unmarked(edges: set<Edge>): set<Edge>
  {
    set e | e in edges && e.edgeType == E && NeedsMark(e)
  }

  /** Progress: the update removes exactly the rewritten boundary edges from
      the `E` edges still waiting for a mark, and adds none. */
  lemma PropagationProgress(edges: set<Edge>, q: Edge, c: seq<Vertex>, bs: seq<Edge>)
    requires Propagation(edges, q, c, bs)
    ensures Unmarked(Propagated(edges, bs)) == Unmarked(edges) - ToMark(bs)
    ensures ToMark(bs) <= Unmarked(edges)
  {
    forall m | m in MarkedSet(ToMark(bs)) ensures !NeedsMark(m) {
      var d :| d in ToMark(bs) && m == Marked(d);
      MarkedCopy(d);
    }
    forall b | b in ToMark(bs) ensures b in Unmarked(edges) {
      var i :| 0 <= i < |bs| && bs[i] == b;
    }
  }
}
