/**
 * Hyperedges (hypergrammar/edge.py).
 *
 * An edge is an immutable value: a kind (`E` for a mesh edge, `Q` for an
 * element), a set of vertex names and a map of integer parameters. Python's
 * `__eq__` and `__hash__` compare all three components, which is exactly
 * Dafny's structural equality on a datatype.
 */
module Edges {
  import opened Optional

  type Vertex = string
  type Params = map<string, int>

  /** The reserved parameter holding the refinement flag. */
  const RKey: string := "R"

  datatype EdgeType = E | Q

  datatype Edge = Edge(edgeType: EdgeType, vertices: set<Vertex>, parameters: Params)

  /** The constructor `Edge(edge_type, vertices, parameters=None)`: the dictionary
      is kept when it is given and non-empty (`parameters or {}`), otherwise the
      parameters are the empty map. */
  function NewEdge(edgeType: EdgeType, vertices: set<Vertex>, parameters: Option<Params>): (e: Edge)
    ensures e.edgeType == edgeType && e.vertices == vertices
    ensures parameters.None? ==> e.parameters == map[]
    ensures parameters.Some? ==> e.parameters == parameters.value
  {
    var given := parameters.Some? && parameters.value != map[];
    Edge(edgeType, vertices, if given then parameters.value else map[])
  }

  /** `frozenset(xs)` for a list of vertex names. */
  function VertexSet(xs: seq<Vertex>): set<Vertex>
  {
    set x | x in xs
  }

  /** `parameters.get(key)` */
  function Get(p: Params, key: string): Option<int>
  {
    if key in p then Some(p[key]) else None
  }

  /** `parameters.get(key, default)` */
  function GetOr(p: Params, key: string, default: int): int
  {
    if key in p then p[key] else default
  }

  /** The copy that Prod9 and Prod10 build: same kind and vertices, the
      parameters copied with `R` set to 1. */
  function Marked(e: Edge): (m: Edge)
    ensures m.edgeType == e.edgeType && m.vertices == e.vertices
    ensures Get(m.parameters, RKey) == Some(1)
    ensures forall k :: k != RKey ==> Get(m.parameters, k) == Get(e.parameters, k)
  {
    NewEdge(e.edgeType, e.vertices, Some(e.parameters[RKey := 1]))
  }

  /** Two edges are equal exactly when kind, vertex set and parameters agree
      (`__eq__`), and equal edges have equal components, hence equal hashes. */
  lemma EdgeEquality(a: Edge, b: Edge)
    ensures a == b <==> (a.edgeType == b.edgeType && a.vertices == b.vertices && a.parameters == b.parameters)
  {
  }

  /** The order (and repetition) in which vertices are listed when the frozenset
      is built does not change the edge. */
  lemma {:induction false} VertexOrderIrrelevant(t: EdgeType, xs: seq<Vertex>, ys: seq<Vertex>, p: Option<Params>)
    requires forall v :: v in xs <==> v in ys
    ensures NewEdge(t, VertexSet(xs), p) == NewEdge(t, VertexSet(ys), p)
  {
    assert VertexSet(xs) == VertexSet(ys);
  }

  /** Without parameters, or with an empty dictionary, the edge has no parameters,
      and reading `R` with its default gives 0. */
  lemma DefaultParameters(t: EdgeType, vs: set<Vertex>)
    ensures NewEdge(t, vs, None).parameters == map[]
    ensures NewEdge(t, vs, Some(map[])) == NewEdge(t, vs, None)
    ensures Get(NewEdge(t, vs, None).parameters, RKey) == None
    ensures GetOr(NewEdge(t, vs, None).parameters, RKey, 0) == 0
  {
  }

  /** Edges that differ only in `R` are different edges, so an edge set can hold
      both: a set of the two has two elements. */
  lemma FlagDistinguishesEdges(t: EdgeType, vs: set<Vertex>, p: Params, r0: int, r1: int)
    requires r0 != r1
    ensures var a := NewEdge(t, vs, Some(p[RKey := r0]));
            var b := NewEdge(t, vs, Some(p[RKey := r1]));
            a != b && |{a, b}| == 2
  {
    var a := NewEdge(t, vs, Some(p[RKey := r0]));
    var b := NewEdge(t, vs, Some(p[RKey := r1]));
    assert a.parameters[RKey] != b.parameters[RKey];
  }

  /** The marked copy holds the original's keys plus `R`, and differs from an
      edge whose `R` is missing or 0. */
  lemma MarkedCopy(e: Edge)
    ensures Marked(e).parameters.Keys == e.parameters.Keys + {RKey}
    ensures GetOr(e.parameters, RKey, 0) == 0 ==> Marked(e) != e
  {
  }
}
