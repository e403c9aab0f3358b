/**
 * Production 9 (hypergrammar/productions/prod_9.py): mark a hexagonal element
 * for refinement.
 *
 * A candidate is a `Q` edge whose `R` is 0 or missing. Candidates are visited
 * in the edge set's iteration order; one with other than six vertices is
 * skipped, one the RFC rejects is skipped, and the first remaining one is
 * replaced by its copy with `R` set to 1 (every other parameter kept). Unlike
 * production 0, no boundary cycle is checked.
 */
module Production9 {
  import opened Optional
  import opened Edges
  import opened Hypergraphs

  /** `Q` edge with `R` 0 or absent. */
  predicate IsCandidate(e: Edge): (b: bool)
    ensures b <==> e.edgeType == Q && (RKey !in e.parameters || e.parameters[RKey] == 0)
  {
    e.edgeType == Q && GetOr(e.parameters, RKey, 0) == 0
  }

  function Candidates(edges: set<Edge>): set<Edge>
  {
    set e | e in edges && IsCandidate(e)
  }

  class Prod9 {
    const rfc: Option<Rfc>

    constructor (rfc: Option<Rfc>)
      ensures this.rfc == rfc
    {
      this.rfc := rfc;
    }

    method Apply(graph: Hypergraph) returns (r: Option<Hypergraph>)
      modifies graph
      ensures r.Some? ==>
        r.value == graph &&
        (exists e :: e in old(graph.edges) && IsCandidate(e) && |e.vertices| == 6 && old(ValidateEdge(rfc, graph, e)) &&
                     graph.edges == Replace(old(graph.edges), e, Marked(e))) &&
        graph.nodeParameters == old(graph.nodeParameters) && graph.rfc == old(graph.rfc)
      ensures r.None? ==>
        unchanged(graph) &&
        forall e :: e in old(graph.edges) && IsCandidate(e) && |e.vertices| == 6 ==> !old(ValidateEdge(rfc, graph, e))
    {
      var candidates := set e | e in graph.GetEdges() && e.edgeType == Q && GetOr(e.parameters, RKey, 0) == 0;

      var rest := candidates;
      while rest != {}
        invariant rest <= candidates
        invariant unchanged(graph)
        invariant forall e :: e in candidates && e !in rest && |e.vertices| == 6 ==> !ValidateEdge(rfc, graph, e)
        decreases rest
      {
        var edge :| edge in rest;
        rest := rest - {edge};

        if |edge.vertices| != 6 {
          continue;
        }
        if !ValidateEdge(rfc, graph, edge) {
          continue;
        }

        var newParams := edge.parameters[RKey := 1];
        var newEdge := NewEdge(Q, edge.vertices, Some(newParams));
        assert newEdge == Marked(edge);
        graph.RemoveEdge(edge);
        graph.AddEdge(newEdge);
        return Some(graph);
      }
      return None;
    }
  }

  /** The number of edges is unchanged unless the marked copy was already in
      the graph, in which case the two coincide and one edge fewer remains. */
  lemma RewriteEdgeCount(edges: set<Edge>, e: Edge)
    requires e in edges && IsCandidate(e)
    ensures |Replace(edges, e, Marked(e))| == if Marked(e) in edges then |edges| - 1 else |edges|
  {
    MarkedCopy(e);
    ReplaceCount(edges, e, Marked(e));
  }

  /** Each rewrite removes exactly one candidate and creates none. */
  lemma RewriteRemovesOneCandidate(edges: set<Edge>, e: Edge)
    requires e in edges && IsCandidate(e)
    ensures Candidates(Replace(edges, e, Marked(e))) == Candidates(edges) - {e}
    ensures |Candidates(Replace(edges, e, Marked(e)))| == |Candidates(edges)| - 1
  {
    MarkedCopy(e);
    assert !IsCandidate(Marked(e));
    assert Candidates(Replace(edges, e, Marked(e))) == Candidates(edges) - {e};
    assert Candidates(edges) == (Candidates(edges) - {e}) + {e};
  }
}
