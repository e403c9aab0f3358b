/**
 * Production 0 (hypergrammar/productions/prod_0.py): mark a quadrilateral
 * element for refinement.
 *
 * A candidate is a `Q` edge whose `R` is present and 0. Candidates are visited
 * in the edge set's iteration order; a candidate without exactly four vertices
 * is a fatal topology error; one whose four vertices have a closed boundary
 * cycle of `E` edges and that the RFC accepts is replaced by a `Q` edge on the
 * same vertices whose parameters are exactly `{R: 1}`. At most one edge is
 * rewritten per call, in place, and the same graph object is returned.
 */
module Production0 {
  import opened Optional
  import opened Edges
  import opened Hypergraphs
  import opened Cycles

  /** `apply` returns the graph, returns `None`, or raises `ValueError`. */
  datatype Outcome = Rewritten(graph: Hypergraph) | NoMatch | InvalidTopology(vertexCount: nat)

  /** A `Q` edge whose `R` is present and 0; a missing `R` does not qualify. */
  predicate IsCandidate(e: Edge): (b: bool)
    ensures b <==> e.edgeType == Q && RKey in e.parameters && e.parameters[RKey] == 0
  {
    e.edgeType == Q && Get(e.parameters, RKey) == Some(0)
  }

  /** The replacement edge: same vertices, parameters exactly `{R: 1}`. */
  function MarkedQuad(q: Edge): Edge
  {
    NewEdge(Q, q.vertices, Some(map[RKey := 1]))
  }

  /** A candidate that passes the topology check. */
  ghost predicate Matches(edges: set<Edge>, q: Edge)
  {
    IsCandidate(q) && |q.vertices| == 4 && HasBoundaryCycle(edges, q.vertices)
  }

  /** The candidates of an edge set. */
  function Candidates(edges: set<Edge>): set<Edge>
  {
    set e | e in edges && IsCandidate(e)
  }

  class Prod0 {
    const rfc: Option<Rfc>

    constructor (rfc: Option<Rfc>)
      ensures this.rfc == rfc
    {
      this.rfc := rfc;
    }

    method Apply(graph: Hypergraph) returns (r: Outcome)
      modifies graph
      ensures r.Rewritten? ==>
        r.graph == graph &&
        (exists q :: q in old(graph.edges) && Matches(old(graph.edges), q) && old(ValidateEdge(rfc, graph, q)) &&
                     graph.edges == Replace(old(graph.edges), q, MarkedQuad(q))) &&
        graph.nodeParameters == old(graph.nodeParameters) && graph.rfc == old(graph.rfc)
      ensures !r.Rewritten? ==> unchanged(graph)
      ensures r.InvalidTopology? ==>
        exists q :: q in old(graph.edges) && IsCandidate(q) && |q.vertices| == r.vertexCount && r.vertexCount != 4
      ensures r.NoMatch? ==>
        forall q :: q in old(graph.edges) && IsCandidate(q) ==>
          |q.vertices| == 4 && !(HasBoundaryCycle(old(graph.edges), q.vertices) && old(ValidateEdge(rfc, graph, q)))
    {
      var hgEdges := graph.GetEdges();

      // q_edges: the candidates, in the edge set's iteration order
      var qEdges: seq<Edge> := [];
      var rest := hgEdges;
      while rest != {}
        invariant rest <= hgEdges
        invariant forall e :: e in qEdges <==> e in hgEdges && e !in rest && IsCandidate(e)
        decreases rest
      {
        var edge :| edge in rest;
        if edge.edgeType == Q && Get(edge.parameters, RKey) == Some(0) {
          qEdges := qEdges + [edge];
        }
        rest := rest - {edge};
      }

      if qEdges == [] {
        return NoMatch;
      }

      for i := 0 to |qEdges|
        invariant unchanged(graph)
        invariant forall k :: 0 <= k < i ==>
          |qEdges[k].vertices| == 4 && !(HasBoundaryCycle(hgEdges, qEdges[k].vertices) && ValidateEdge(rfc, graph, qEdges[k]))
      {
        var qEdge := qEdges[i];
        var qEdgeVertices := qEdge.vertices;
        if |qEdgeVertices| != 4 {
          return InvalidTopology(|qEdgeVertices|);
        }

        var cycleMatches := FindCanonicalCycle(graph.GetEdges(), qEdgeVertices);
        if !cycleMatches {
          continue;
        }

        // the boundary is closed; the RFC has the last word
        if !ValidateEdge(rfc, graph, qEdge) {
          continue;
        }

        var newQEdge := NewEdge(Q, qEdgeVertices, Some(map[RKey := 1]));
        var newGraph := graph;
        newGraph.RemoveEdge(qEdge);
        newGraph.AddEdge(newQEdge);
        return Rewritten(newGraph);
      }

      forall q | q in hgEdges && IsCandidate(q)
        ensures |q.vertices| == 4 && !(HasBoundaryCycle(hgEdges, q.vertices) && ValidateEdge(rfc, graph, q))
      {
        var k :| 0 <= k < |qEdges| && qEdges[k] == q;
      }
      return NoMatch;
    }
  }

  /** The rewrite replaces the candidate and nothing else: the marked quad is
      present, the candidate is gone, and every other edge keeps its presence. */
  lemma RewriteReplacesOnlyCandidate(edges: set<Edge>, q: Edge)
    requires q in edges && IsCandidate(q)
    ensures var after := Replace(edges, q, MarkedQuad(q));
            MarkedQuad(q) in after && q !in after &&
            forall e :: e != q && e != MarkedQuad(q) ==> (e in after <==> e in edges)
  {
    assert Get(MarkedQuad(q).parameters, RKey) == Some(1);
  }

  /** The number of edges is unchanged, unless a `Q` edge with parameters
      exactly `{R: 1}` on the same vertices was already present, in which case
      the two coincide and one edge fewer remains. */
  lemma RewriteEdgeCount(edges: set<Edge>, q: Edge)
    requires q in edges && IsCandidate(q)
    ensures |Replace(edges, q, MarkedQuad(q))| == if MarkedQuad(q) in edges then |edges| - 1 else |edges|
  {
    assert Get(MarkedQuad(q).parameters, RKey) == Some(1);
    ReplaceCount(edges, q, MarkedQuad(q));
  }

  /** Each rewrite removes exactly one candidate and adds none, so repeated
      application reaches a graph without candidates. */
  lemma RewriteRemovesOneCandidate(edges: set<Edge>, q: Edge)
    requires q in edges && IsCandidate(q)
    ensures Candidates(Replace(edges, q, MarkedQuad(q))) == Candidates(edges) - {q}
    ensures |Candidates(Replace(edges, q, MarkedQuad(q)))| == |Candidates(edges)| - 1
  {
    assert Get(MarkedQuad(q).parameters, RKey) == Some(1);
    assert Candidates(Replace(edges, q, MarkedQuad(q))) == Candidates(edges) - {q};
    assert Candidates(edges) == (Candidates(edges) - {q}) + {q};
  }
}
