# Hypergraph grammar productions, modelled in Dafny

This project models the rewriting engine of the hypergraph-grammar mesh
refinement library. It has four parts.

- **Edges.** A hyperedge is an immutable value: a kind (`E` mesh edge or `Q`
  element), a set of vertex names and a map of integer parameters. The
  refinement flag is kept in parameter `R`.
- **Hypergraph.** The mutable store. It holds a set of edges, a per-vertex
  parameter map and an optional refinement criterion (RFC).
- **`canonical_rotation`.** A helper that rotates a list of vertex names so
  that it starts at its least element.
- **Three productions.** Each rewrites at most one thing per call, in place,
  and returns the graph it was given:
  - production 0 marks a quadrilateral that has a closed boundary of `E`
    edges;
  - production 9 marks a hexagonal element;
  - production 10 copies a hexagon's mark onto the `E` edges of its boundary.

Files and modules:

- `optional.dfy` (`Optional`): the `Option` type.
- `edge.dfy` (`Edges`): `Edge` as a datatype. Python's `__eq__`/`__hash__`
  are Dafny's structural equality. The getters are the datatype's fields.
- `hypergraph.dfy` (`Hypergraphs`): `Hypergraph` as a class whose methods
  reassign its fields. It also holds the shared `_validate_edge` of
  productions 0 and 9.
- `utils.dfy` (`Utils`): Python's string order, `min`, `list.index`,
  rotation by slicing, and `canonical_rotation`.
- `cycles.dfy` (`Cycles`): the topology checks shared by productions 0 and 10.
  - `_e_edges_match` and `_check_cycle` are the same code in both files, so
    they are modelled once.
  - It also holds `itertools.permutations` and `_get_edges_from_cycle`.
  - The searches are proved against one specification: some cyclic ordering
    of the vertex set has every consecutive pair, last-to-first included,
    spanned by an `E` edge.
- `prod0.dfy`, `prod9.dfy`, `prod10.dfy` (`Production0`, `Production9`,
  `Production10`): each production is a class whose `Apply` method mutates
  the graph it is given.
- `scenarios.dfy` (`Scenarios`): the situations the productions' tests set
  up, generalised to families of inputs.
  - Examples: a ring of `E` edges around an element of any size, the same
    ring with its closing edge missing, a lone element with any parameters
    and any RFCs.
  - Each scenario builds the graph, calls `Apply`, and states the outcome.
    Only the contracts of `Apply` are used to prove it.

Python's `frozenset` iteration order is unspecified. The loops that walk an
edge set therefore pick the next element nondeterministically. Every
contract holds whatever order is chosen:

- a success names an edge that qualified;
- a failure says that no edge qualified.

## Model

| member | source | states |
|---|---|---|
| Edges.NewEdge | hypergrammar/edge.py:10-18 | the edge has the given kind and vertices; omitted parameters give the empty map, given ones are kept |
| Edges.EdgeEquality | hypergrammar/edge.py:32-39 | two edges are equal iff kind, vertex set and parameter map are all equal |
| Edges.VertexOrderIrrelevant | hypergrammar/edge.py:13 | building the vertex set from two lists with the same elements, in any order, gives the same edge |
| Edges.DefaultParameters | hypergrammar/edge.py:14-18 | no parameters, or an empty dictionary, gives an empty map in which `R` is absent and reads as 0 with default 0 |
| Edges.FlagDistinguishesEdges | hypergrammar/edge.py:32-39 | edges that differ only in `R` are distinct, so a set holds both |
| Edges.Marked | hypergrammar/productions/prod_9.py:30-32 | the marked copy keeps kind and vertices, reads `R` as present and 1, and reads every other key exactly as the original does (also prod_10.py:45-47, where the kind is `E` because only `E` edges are marked there) |
| Edges.MarkedCopy | hypergrammar/productions/prod_9.py:30-32 | the copy's keys are the original's plus `R`, and it differs from an edge whose `R` is 0 or missing |
| Hypergraphs.Hypergraph.constructor | hypergrammar/hypergraph.py:10-16 | a new graph has no edges, no vertex parameters and the given RFC |
| Hypergraphs.Hypergraph.AddEdge | hypergrammar/hypergraph.py:18-19 | edges become old ∪ {e}; adding a present edge changes nothing; vertex parameters and RFC unchanged |
| Hypergraphs.Hypergraph.RemoveEdge | hypergrammar/hypergraph.py:21-22 | edges become old \ {e}; removing an absent edge changes nothing; vertex parameters and RFC unchanged |
| Hypergraphs.Hypergraph.SetVertexParameter | hypergrammar/hypergraph.py:24-25 | only v's entry is overwritten; afterwards `get_vertex_parameters(v)` is p and every other vertex reads as before |
| Hypergraphs.Hypergraph.SetRfc | hypergrammar/hypergraph.py:27-31 | `get_rfc` returns exactly what was stored; edges and vertex parameters unchanged |
| Hypergraphs.Hypergraph.GetRfc | hypergrammar/hypergraph.py:30-31 | returns the RFC stored by the constructor or by `set_rfc` |
| Hypergraphs.Hypergraph.GetEdges | hypergrammar/hypergraph.py:43-44 | returns the current edge set, the same one an RFC is shown |
| Hypergraphs.Hypergraph.GetVertexParameters | hypergrammar/hypergraph.py:46-47 | the map stored for a vertex, or the empty map for a vertex never set; with the constructor's and `SetVertexParameter`'s contracts, a new graph reads empty everywhere and a write changes only the written vertex |
| Hypergraphs.Hypergraph.EdgeRfcIsValid | hypergrammar/hypergraph.py:33-41 | `None` iff no RFC is installed; otherwise the installed RFC's verdict on the edge and the graph |
| Hypergraphs.ValidateEdge | hypergrammar/productions/prod_0.py:69-79 | the production's RFC decides if set; otherwise the graph's RFC; with neither, the edge is accepted (same code at prod_9.py:40-53) |
| Hypergraphs.ReplaceCount | hypergrammar/productions/prod_0.py:62-63 | remove-then-add of a different edge keeps the edge count, except that one edge is lost when the added edge was already present |
| Utils.StrLeTotal | hypergrammar/utils.py:2 | Python's string order is total, so `min` is defined on any non-empty list |
| Utils.StrLeAntisymmetric | hypergrammar/utils.py:2 | Python's string order is antisymmetric |
| Utils.StrLeTransitive | hypergrammar/utils.py:2 | Python's string order is transitive |
| Utils.Minimum | hypergrammar/utils.py:2 | `min(seq)` of a non-empty list is an element of it and is ≤ every element |
| Utils.IndexOf | hypergrammar/utils.py:2 | `seq.index(x)` is the first position holding x |
| Utils.Rotate | hypergrammar/utils.py:3 | `seq[k:] + seq[:k]` has the same length, and position i holds element (i + k) mod n |
| Utils.CanonicalRotation | hypergrammar/utils.py:1-3 | for a non-empty input: the result has the same length, is a rotation of the input, and starts with an element ≤ every input element |
| Utils.CanonicalRotationPermutes | hypergrammar/utils.py:3 | the result holds the same multiset of elements as the input |
| Utils.CanonicalRotationIdempotent | hypergrammar/utils.py:2-3 | applying it to its own result returns that result |
| Utils.CanonicalRotationOfRotation | hypergrammar/productions/prod_0.py:38-39 | for distinct elements, every rotation has the same canonical rotation |
| Cycles.FindEEdge | hypergrammar/productions/prod_0.py:81-85 | scanning the edge set finds an `E` edge spanning exactly the given vertex set iff one exists |
| Cycles.EEdgesMatch | hypergrammar/productions/prod_0.py:81-85 | `_e_edges_match(g, s)` holds iff some `E` edge has vertex set exactly s (also prod_10.py:56-61) |
| Cycles.CheckCycle | hypergrammar/productions/prod_0.py:87-95 | `_check_cycle(g, c)` holds iff every consecutive pair of c, last-to-first included, spans an `E` edge (also prod_10.py:63-70) |
| Cycles.GetEdgesFromCycle | hypergrammar/productions/prod_10.py:72-85 | returns at most as many edges as the cycle has pairs, each an `E` edge of the graph spanning one of the cycle's consecutive pairs; on a closed cycle exactly one per consecutive pair, in order, with that pair as its vertex set |
| Cycles.ListVertices | hypergrammar/productions/prod_10.py:19 | `list(frozenset)` lists every vertex exactly once |
| Cycles.Permutations | hypergrammar/productions/prod_10.py:27 | every listed permutation holds the same multiset of vertices as the input |
| Cycles.PermutationsComplete | hypergrammar/productions/prod_10.py:27 | every rearrangement of the input is listed |
| Cycles.ClosedCycleRotationInvariant | hypergrammar/productions/prod_0.py:87-95 | a rotation of a sequence is a closed cycle iff the sequence is |
| Cycles.FindCycle | hypergrammar/productions/prod_10.py:25-33 | the permutation search returns a rearrangement of the vertices that is a closed cycle, or `None` only when no rearrangement is one |
| Cycles.CanonicalCycles | hypergrammar/productions/prod_0.py:37-39 | the collected set is exactly the canonical rotations of the permutations |
| Cycles.FindCanonicalCycle | hypergrammar/productions/prod_0.py:37-48 | checking only canonical rotations finds a cycle iff some ordering of the vertex set is a closed cycle |
| Production0.IsCandidate | hypergrammar/productions/prod_0.py:23 | a candidate is a `Q` edge whose `R` key is present with value 0; an edge without `R` is not one |
| Production0.Prod0.constructor | hypergrammar/productions/prod_0.py:13-15 | the production keeps the RFC it is given, or none |
| Production0.Prod0.Apply | hypergrammar/productions/prod_0.py:17-67 | on success: the same graph, with one candidate q (`Q`, `R` present and 0, 4 vertices, closed boundary, accepted by the RFC) replaced by `Q` on q's vertices with parameters exactly {R: 1}, and the rest unchanged. A topology error leaves the graph unchanged and names a candidate without 4 vertices. `None` leaves it unchanged and means every candidate has 4 vertices and none both has a boundary cycle and is accepted |
| Production0.RewriteReplacesOnlyCandidate | hypergrammar/productions/prod_0.py:54-63 | after the rewrite the marked quad is present, the candidate is gone, and every other edge is present exactly as before |
| Production0.RewriteEdgeCount | hypergrammar/productions/prod_0.py:54-63 | the edge count is kept, except that it drops by one when the marked quad was already present |
| Production0.RewriteRemovesOneCandidate | hypergrammar/productions/prod_0.py:20-24 | a rewrite removes exactly the chosen candidate from the candidates and adds none |
| Production9.IsCandidate | hypergrammar/productions/prod_9.py:17 | a candidate is a `Q` edge whose `R` key is missing or has value 0 |
| Production9.Prod9.constructor | hypergrammar/productions/prod_9.py:10-11 | the production keeps the RFC it is given, or none |
| Production9.Prod9.Apply | hypergrammar/productions/prod_9.py:13-38 | on success: the same graph, with one candidate e (`Q`, `R` 0 or missing, 6 vertices, accepted by the RFC) replaced by its copy with `R` = 1. `None` leaves the graph unchanged and holds iff no 6-vertex candidate is accepted |
| Production9.RewriteEdgeCount | hypergrammar/productions/prod_9.py:30-35 | the edge count is kept, except that it drops by one when the marked copy was already present |
| Production9.RewriteRemovesOneCandidate | hypergrammar/productions/prod_9.py:15-18 | a rewrite removes exactly the chosen candidate from the candidates and adds none |
| Production10.IsAnchor | hypergrammar/productions/prod_10.py:15 | an anchor is a `Q` edge whose `R` key is present with value 1 |
| Production10.AllMarked | hypergrammar/productions/prod_10.py:39 | a boundary is skipped iff every edge on it has `R` present with value 1 (missing `R` does not count as marked) |
| Production10.NeedsMark | hypergrammar/productions/prod_10.py:44 | an edge is rewritten iff its `R` key is missing or has value 0 |
| Production10.Prod10.Apply | hypergrammar/productions/prod_10.py:11-54 | on success: the same graph, and for some anchor (`Q`, `R` present and 1, 6 vertices) with a closed cycle and a boundary not entirely at `R` = 1, each boundary edge with `R` 0 or missing is replaced by its marked copy. `None` leaves the graph unchanged and means every 6-vertex anchor with a boundary cycle has one whose boundary is entirely at `R` = 1 |
| Production10.Update | hypergrammar/productions/prod_10.py:42-50 | the loop over the boundary leaves exactly the old edges minus those with `R` 0 or missing, plus their marked copies |
| Production10.PropagationKeepsQEdges | hypergrammar/productions/prod_10.py:42-50 | every `Q` edge, the anchor included, is present afterwards exactly when it was before |
| Production10.PropagationRaisesFlags | hypergrammar/productions/prod_10.py:42-50 | `R` never decreases: a vanished edge was a boundary edge with `R` 0 or missing, and its copy with `R` = 1 is present; a new edge is such a copy; other boundary edges stay |
| Production10.PropagationChangesIffSomeUnmarked | hypergrammar/productions/prod_10.py:38-50 | the returned graph differs from the input iff some boundary edge has `R` 0 or missing |
| Production10.PropagationProgress | hypergrammar/productions/prod_10.py:42-50 | the set of `E` edges with `R` 0 or missing loses exactly the rewritten boundary edges |
| Scenarios.RingIsClosed | hypergrammar/productions/tests/test_prod_0.py:128-142 | the sequence a ring of `E` edges is built around is a closed cycle of any graph containing the ring |
| Scenarios.PathHasNoBoundaryCycle | hypergrammar/productions/tests/test_prod_0.py:144-158 | a ring of at least three distinct vertices missing its closing edge has no boundary cycle in any vertex order |
| Scenarios.Prod0OnRing | hypergrammar/productions/tests/test_prod_0.py:9-47 | production 0 on a closed ring around a `Q` edge with `R` = 0 rewrites a square exactly when the RFC accepts, leaving the ring and adding the square with {R: 1}; any other size is a topology error with the graph unchanged (also lines 160-212) |
| Scenarios.Prod0OnPath | hypergrammar/productions/tests/test_prod_0.py:82-98 | with the closing edge missing, a square gives `None` and any other size a topology error; the graph never changes |
| Scenarios.Prod9OnLoneEdge | hypergrammar/productions/tests/test_prod_9.py:8-96 | production 9 on a lone `Q` edge marks it exactly when `R` is 0 or missing, it has six vertices and the RFC accepts; otherwise the graph is unchanged |
| Scenarios.RingBoundaryEdges | hypergrammar/productions/tests/test_prod_10.py:13-26 | in a graph made of a ring of `E` edges and one `Q` edge, the boundary collected along any closed cycle through the ring's vertices holds exactly the ring's edges |
| Scenarios.RingPropagation | hypergrammar/productions/tests/test_prod_10.py:47-68 | on a ring whose boundary is the whole ring, the update sets to 1 exactly the flags that were 0 and leaves every other edge as it was |
| Scenarios.Prod10OnRing | hypergrammar/productions/tests/test_prod_10.py:28-92 | production 10 on a closed ring, edge i with flag `flags[i]`, around a `Q` edge with flag `qr` applies iff there are six vertices, `qr` = 1 and some flag is not 1; the final edge set is then the ring with every 0 flag set to 1 (all six at 1 for uniform 0 flags or for alternating 1 and 0), the `Q` edge unchanged, and otherwise the graph as built |
| Scenarios.Prod10OnPath | hypergrammar/productions/tests/test_prod_10.py:94-112 | with the closing edge missing, production 10 never applies |

## Left out

- `Hypergraph.draw` renders through an external plotting library. It is I/O with no state change, so it is not modelled.
- The demo script `draw_p9_p10_test.py` only plots, saves and prints, so it is not modelled.
- The abstract production interface `i_prod.py` has no logic, so it is not modelled.
- Concrete RFC implementations are external collaborators. An RFC is an arbitrary pure Dafny predicate over an edge and a snapshot of the graph's edges and vertex parameters.
  - The snapshot does not include the graph's own RFC.
  - An RFC with side effects, or one that raises, is not modelled.
- The `meta` argument of `edge_rfc_is_valid` is not modelled, because no production passes it.
- Python's set iteration order is not modelled. The model chooses the next edge nondeterministically and states order-independent contracts.
- Production0.Prod0.Apply: which error or which rewrite happens depends on that order, so the contract says only that some candidate justified the outcome.
- The running time of the n! permutation search is not modelled.
- Cycles.Permutations: enumerates in `itertools` order, but only its soundness and completeness are stated, not the order itself.
- Vertex parameters are an uninterpreted map. Their `x`/`y` meaning matters only for drawing.
- Integer parameters are unbounded integers, as in Python.
- Parameter dictionaries are shared by reference in the code: an edge keeps the caller's dict (edge.py:18), `set_vertex_parameter` stores the caller's dict (hypergraph.py:25), and `get_vertex_parameters` returns the stored dict itself (hypergraph.py:47). The model uses immutable map values, so mutating such a dict after the call, and the aliasing it would cause, is not modelled.
- Utils.CanonicalRotation: requires a non-empty list. `canonical_rotation([])` raises `ValueError` from `min`; no caller passes an empty list, because the productions call it only on permutations of four vertices.

Two consequences of the code that a reader might not expect:

- **Edge count.** A rewrite might be expected to keep the number of edges.
  When the marked copy is already in the graph, the set union merges it and
  one edge fewer remains (`RewriteEdgeCount` in both productions).
- **Production 10 with an `R` outside 0, 1 or missing.** The all-marked test
  reads `R` without a default, but the update reads it with default 0. A
  boundary whose only unmarked edges carry such an `R` (2, say) is not
  skipped, yet nothing in it is updated. `apply` then reports success and
  returns the graph unchanged, where `None` might be expected
  (`PropagationChangesIffSomeUnmarked`, `Prod10OnRing` with every flag 2).
