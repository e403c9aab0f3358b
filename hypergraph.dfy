/**
 * The hypergraph store (hypergrammar/hypergraph.py) and the refinement
 * criterion (RFC) it may carry.
 *
 * The store is a mutable object: its edge set is replaced by a union or a
 * difference, its per-vertex parameter dictionary is updated in place, and its
 * RFC can be swapped. The RFC itself is an uninterpreted pure predicate over an
 * edge and a snapshot of the graph.
 */
module Hypergraphs {
  import opened Optional
  import opened Edges

  /** What an RFC gets to see of the graph it is asked about. */
  datatype GraphView = GraphView(edges: set<Edge>, vertexParameters: map<Vertex, Params>)

  /** `RFC.is_valid(edge, hypergraph)`; the productions never pass `meta`. */
  type Rfc = (Edge, GraphView) -> bool

  class Hypergraph {
    var edges: set<Edge>
    var nodeParameters: map<Vertex, Params>
    var rfc: Option<Rfc>

    /** `Hypergraph(rfc=None)`: no edges, no vertex parameters, the given RFC. */
    constructor (rfc: Option<Rfc>)
      ensures edges == {} && nodeParameters == map[] && this.rfc == rfc
      ensures forall v :: GetVertexParameters(v) == map[]
    {
      edges := {};
      nodeParameters := map[];
      this.rfc := rfc;
    }

    function View(): GraphView
      reads this
    {
      GraphView(edges, nodeParameters)
    }

    /** Set union: adding an edge that is already present changes nothing. */
    method AddEdge(e: Edge)
      modifies this
      ensures edges == old(edges) + {e}
      ensures e in old(edges) ==> edges == old(edges)
      ensures nodeParameters == old(nodeParameters) && rfc == old(rfc)
    {
      edges := edges + {e};
    }

    /** Set difference: removing an absent edge changes nothing. */
    method RemoveEdge(e: Edge)
      modifies this
      ensures edges == old(edges) - {e}
      ensures e !in old(edges) ==> edges == old(edges)
      ensures nodeParameters == old(nodeParameters) && rfc == old(rfc)
    {
      edges := edges - {e};
    }

    /** Overwrites (does not merge) the parameters of one vertex. */
    method SetVertexParameter(v: Vertex, p: Params)
      modifies this
      ensures nodeParameters == old(nodeParameters)[v := p]
      ensures GetVertexParameters(v) == p
      ensures forall u :: u != v ==> GetVertexParameters(u) == old(GetVertexParameters(u))
      ensures edges == old(edges) && rfc == old(rfc)
    {
      nodeParameters := nodeParameters[v := p];
    }

    method SetRfc(r: Option<Rfc>)
      modifies this
      ensures rfc == r && GetRfc() == r
      ensures edges == old(edges) && nodeParameters == old(nodeParameters)
    {
      rfc := r;
    }

    /** `get_rfc`: the RFC installed by the constructor or by `SetRfc`. */
    function GetRfc(): (r: Option<Rfc>)
      reads this
      ensures r == rfc
    {
      rfc
    }

    /** `get_edges`: the graph's current edge set, as the RFC sees it. */
    function GetEdges(): (es: set<Edge>)
      reads this
      ensures es == edges && es == View().edges
    {
      edges
    }

    /** `get_vertex_parameters`: the stored map, or the empty map for a vertex
        that was never set. */
    function GetVertexParameters(v: Vertex): (p: Params)
      reads this
      ensures v in nodeParameters ==> p == nodeParameters[v]
      ensures v !in nodeParameters ==> p == map[]
    {
      if v in nodeParameters then nodeParameters[v] else map[]
    }

    /** The tri-state check: `None` when no RFC is installed, otherwise the
        installed RFC's verdict on the edge and this graph. */
    function EdgeRfcIsValid(e: Edge): (r: Option<bool>)
      reads this
      ensures r.None? <==> rfc.None?
      ensures r.Some? ==> r.value == rfc.value(e, View())
    {
      if rfc.None? then None else Some(rfc.value(e, View()))
    }
  }

  /** `_validate_edge` of Prod0 and Prod9: the production's own RFC decides when
      it has one; otherwise the graph's RFC decides; with neither the edge is
      accepted. */
  function ValidateEdge(prodRfc: Option<Rfc>, graph: Hypergraph, e: Edge): (ok: bool)
    reads graph
    ensures prodRfc.Some? ==> ok == prodRfc.value(e, graph.View())
    ensures prodRfc.None? && graph.rfc.Some? ==> ok == graph.rfc.value(e, graph.View())
    ensures prodRfc.None? && graph.rfc.None? ==> ok
  {
    if prodRfc.Some? then prodRfc.value(e, graph.View())
    else
      var res := graph.EdgeRfcIsValid(e);
      if res.None? then true else res.value
  }

  /** The edge set after `remove_edge(gone)` followed by `add_edge(added)`. */
  function Replace(edges: set<Edge>, gone: Edge, added: Edge): set<Edge>
  {
    (edges - {gone}) + {added}
  }

  /** Replacing a present edge by a different one keeps the number of edges,
      unless the replacement was already present, in which case one is lost. */
  lemma ReplaceCount(edges: set<Edge>, gone: Edge, added: Edge)
    requires gone in edges && gone != added
    ensures |Replace(edges, gone, added)| == if added in edges then |edges| - 1 else |edges|
  {
    var rest := edges - {gone};
    assert edges == rest + {gone};
    assert |rest| == |edges| - 1;
    if added in edges {
      assert rest + {added} == rest;
    } else {
      assert added !in rest;
    }
  }
}
