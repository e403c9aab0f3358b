/**
 * The boundary-cycle matcher shared by Prod0 and Prod10
 * (`_e_edges_match`, `_check_cycle`, `_get_edges_from_cycle` and the
 * permutation searches in hypergrammar/productions/prod_0.py and prod_10.py).
 *
 * A vertex set has a boundary cycle when some cyclic ordering of it, listing
 * each vertex once, has an `E` edge on every consecutive pair, the last vertex
 * being followed by the first. The searches enumerate permutations as
 * `itertools.permutations` does and are proved to find a cycle exactly when
 * one exists.
 */
module Cycles {
  import opened Optional
  import opened Edges
  import opened Utils

  /** Some `E` edge has exactly this vertex set. */
  ghost predicate HasEEdge(edges: set<Edge>, pair: set<Vertex>)
  {
    exists e :: e in edges && e.edgeType == E && e.vertices == pair
  }

  /** The `i`-th consecutive pair of a cyclic sequence, wrapping around. */
  function Pair(c: seq<Vertex>, i: nat): set<Vertex>
    requires i < |c|
  {
    {c[i], c[(i + 1) % |c|]}
  }

  /** Every consecutive pair of `c`, including last-to-first, is an `E` edge. */
  ghost predicate IsClosedCycle(edges: set<Edge>, c: seq<Vertex>)
  {
    forall i :: 0 <= i < |c| ==> HasEEdge(edges, Pair(c, i))
  }

  /** `p` lists every vertex of `vs` exactly once. */
  ghost predicate Arranges(p: seq<Vertex>, vs: set<Vertex>)
  {
    multiset(p) == multiset(vs)
  }

  /** Some cyclic ordering of `vs` is a closed cycle of `E` edges. */
  ghost predicate HasBoundaryCycle(edges: set<Edge>, vs: set<Vertex>)
  {
    exists p :: Arranges(p, vs) && IsClosedCycle(edges, p)
  }

  /** `bs` holds, for each consecutive pair of `c`, an `E` edge of the graph on
      exactly that pair. */
  ghost predicate IsBoundary(edges: set<Edge>, c: seq<Vertex>, bs: seq<Edge>)
  {
    |bs| == |c| &&
    forall i :: 0 <= i < |c| ==> bs[i] in edges && bs[i].edgeType == E && bs[i].vertices == Pair(c, i)
  }

  // ----- scanning the edge set -----

  /** The scan of the edge set for an `E` edge on a given vertex set; the first
      one met in iteration order is returned. */
  method FindEEdge(edges: set<Edge>, pair: set<Vertex>) returns (found: Option<Edge>)
    ensures found.Some? ==> found.value in edges && found.value.edgeType == E && found.value.vertices == pair
    ensures found.None? <==> !HasEEdge(edges, pair)
  {
    var rest := edges;
    while rest != {}
      invariant rest <= edges
      invariant forall e :: e in edges && e !in rest ==> !(e.edgeType == E && e.vertices == pair)
      decreases rest
    {
      var e :| e in rest;
      if e.edgeType == E && e.vertices == pair {
        return Some(e);
      }
      rest := rest - {e};
    }
    return None;
  }

  /** `_e_edges_match(graph, s)`: true exactly when some `E` edge has vertex set `s`. */
  method EEdgesMatch(edges: set<Edge>, pair: set<Vertex>) returns (b: bool)
    ensures b <==> HasEEdge(edges, pair)
  {
    var found := FindEEdge(edges, pair);
    b := found.Some?;
  }

  /** `_check_cycle(graph, cycle)`: stops at the first pair without an `E` edge. */
  method CheckCycle(edges: set<Edge>, c: seq<Vertex>) returns (ok: bool)
    ensures ok <==> IsClosedCycle(edges, c)
  {
    for i := 0 to |c|
      invariant forall j :: 0 <= j < i ==> HasEEdge(edges, Pair(c, j))
    {
      var m := EEdgesMatch(edges, {c[i], c[(i + 1) % |c|]});
      if !m {
        assert !HasEEdge(edges, Pair(c, i));
        return false;
      }
    }
    return true;
  }

  /** `_get_edges_from_cycle(graph, cycle)`: one `E` edge per consecutive pair;
      a pair without one contributes nothing. On a closed cycle the result is
      a full boundary. */
  method GetEdgesFromCycle(edges: set<Edge>, c: seq<Vertex>) returns (bs: seq<Edge>)
    ensures |bs| <= |c|
    ensures forall b :: b in bs ==> b in edges && b.edgeType == E
    ensures forall b :: b in bs ==> exists i :: 0 <= i < |c| && b.vertices == Pair(c, i)
    ensures IsClosedCycle(edges, c) ==> IsBoundary(edges, c, bs)
  {
    bs := [];
    ghost var at: seq<nat> := [];
    for i := 0 to |c|
      invariant |bs| <= i && |at| == |bs|
      invariant forall k :: 0 <= k < |bs| ==>
                  bs[k] in edges && bs[k].edgeType == E && at[k] < i && bs[k].vertices == Pair(c, at[k])
      invariant (forall j :: 0 <= j < i ==> HasEEdge(edges, Pair(c, j))) ==>
                  |bs| == i && forall j :: 0 <= j < i ==> bs[j].vertices == Pair(c, j)
    {
      var found := FindEEdge(edges, Pair(c, i));
      if found.Some? {
        bs := bs + [found.value];
        at := at + [i];
      }
    }
    forall b | b in bs ensures b in edges && b.edgeType == E && exists i :: 0 <= i < |c| && b.vertices == Pair(c, i) {
      var k :| 0 <= k < |bs| && bs[k] == b;
      assert b.vertices == Pair(c, at[k]);
    }
  }

  // ----- enumerating orderings -----

  /** `list(vs)`: the vertices of a set in its (unspecified) iteration order. */
  method ListVertices(vs: set<Vertex>) returns (s: seq<Vertex>)
    ensures Arranges(s, vs)
    ensures |s| == |vs|
  {
    s := [];
    var rest := vs;
    while rest != {}
      invariant rest <= vs
      invariant multiset(s) + multiset(rest) == multiset(vs)
      decreases rest
    {
      var v :| v in rest;
      assert multiset(rest) == multiset(rest - {v}) + multiset{v};
      s := s + [v];
      rest := rest - {v};
    }
    assert |multiset(s)| == |s| && |multiset(vs)| == |vs|;
  }

  function RemoveAt(s: seq<Vertex>, j: nat): seq<Vertex>
    requires j < |s|
  {
    s[..j] + s[j + 1..]
  }

  lemma RemoveAtMultiset(s: seq<Vertex>, j: nat)
    requires j < |s|
    ensures multiset(RemoveAt(s, j)) + multiset{s[j]} == multiset(s)
  {
    assert s == s[..j] + [s[j]] + s[j + 1..];
  }

  function Prepend(x: Vertex, ps: seq<seq<Vertex>>): seq<seq<Vertex>>
  {
    seq(|ps|, i requires 0 <= i < |ps| => [x] + ps[i])
  }

  /** `itertools.permutations(s)`, in its order: the first element taken by
      position, followed by the permutations of the remaining positions. Every
      permutation lists exactly the elements of `s`. */
  function Permutations(s: seq<Vertex>): (ps: seq<seq<Vertex>>)
    ensures forall p :: p in ps ==> multiset(p) == multiset(s)
    decreases |s|, 1, 0
  {
    if s == [] then [[]] else Choices(s, 0)
  }

  /** The permutations of `s` whose first element comes from position `j` or later. */
  function Choices(s: seq<Vertex>, j: nat): (ps: seq<seq<Vertex>>)
    requires j <= |s|
    ensures forall p :: p in ps ==> multiset(p) == multiset(s)
    decreases |s|, 0, |s| - j
  {
    if j == |s| then []
    else
      var rest := Permutations(RemoveAt(s, j));
      RemoveAtMultiset(s, j);
      assert forall q :: q in Prepend(s[j], rest) ==> multiset(q) == multiset(s) by {
        forall q | q in Prepend(s[j], rest) ensures multiset(q) == multiset(s) {
          var i :| 0 <= i < |rest| && q == Prepend(s[j], rest)[i];
          assert q == [s[j]] + rest[i];
          assert rest[i] in rest;
        }
      }
      Prepend(s[j], rest) + Choices(s, j + 1)
  }

  lemma {:induction false} ChoicesContain(s: seq<Vertex>, i: nat, j: nat, p: seq<Vertex>)
    requires i <= j < |s|
    requires p in Prepend(s[j], Permutations(RemoveAt(s, j)))
    ensures p in Choices(s, i)
    decreases j - i
  {
    if i < j {
      ChoicesContain(s, i + 1, j, p);
    }
  }

  lemma MultisetCancel(a: multiset<Vertex>, b: multiset<Vertex>, x: Vertex)
    requires a + multiset{x} == b + multiset{x}
    ensures a == b
  {
    forall y ensures a[y] == b[y] {
      assert (a + multiset{x})[y] == (b + multiset{x})[y];
    }
  }

  /** Every ordering of the elements of `s` is enumerated. */
  lemma {:induction false} PermutationsComplete(s: seq<Vertex>, p: seq<Vertex>)
    requires multiset(p) == multiset(s)
    ensures p in Permutations(s)
    decreases |s|
  {
    assert |multiset(p)| == |p| && |multiset(s)| == |s|;
    if s != [] {
      assert p[0] in multiset(s);
      var j :| 0 <= j < |s| && s[j] == p[0];
      RemoveAtMultiset(s, j);
      assert p == [p[0]] + p[1..];
      assert multiset(p) == multiset(p[1..]) + multiset{p[0]};
      MultisetCancel(multiset(p[1..]), multiset(RemoveAt(s, j)), p[0]);
      PermutationsComplete(RemoveAt(s, j), p[1..]);
      var rest := Permutations(RemoveAt(s, j));
      var k :| 0 <= k < |rest| && rest[k] == p[1..];
      assert Prepend(s[j], rest)[k] == p;
      ChoicesContain(s, 0, j, p);
    }
  }

  // ----- rotation invariance -----

  lemma RotatedPair(c: seq<Vertex>, k: nat, i: nat)
    requires k < |c| && i < |c|
    ensures Pair(Rotate(c, k), i) == Pair(c, (i + k) % |c|)
  {
    var n := |c|;
    ModSmall(i + k, n);
    ModSmall(i + 1, n);
    ModSmall((i + 1) % n + k, n);
    ModSmall((i + k) % n + 1, n);
  }

  lemma {:induction false} ClosedCycleRotatesForward(edges: set<Edge>, c: seq<Vertex>, k: nat)
    requires k < |c| && IsClosedCycle(edges, c)
    ensures IsClosedCycle(edges, Rotate(c, k))
  {
    forall i | 0 <= i < |c| ensures HasEEdge(edges, Pair(Rotate(c, k), i)) {
      RotatedPair(c, k, i);
      ModSmall(i + k, |c|);
    }
  }

  /** Whether a sequence is a closed cycle does not depend on where it starts. */
  lemma {:induction false} ClosedCycleRotationInvariant(edges: set<Edge>, c: seq<Vertex>, k: nat)
    requires k < |c|
    ensures IsClosedCycle(edges, Rotate(c, k)) <==> IsClosedCycle(edges, c)
  {
    if IsClosedCycle(edges, c) {
      ClosedCycleRotatesForward(edges, c, k);
    }
    if IsClosedCycle(edges, Rotate(c, k)) {
      if k == 0 {
        RotateZero(c);
      } else {
        RotateBack(c, k);
        ClosedCycleRotatesForward(edges, Rotate(c, k), |c| - k);
      }
    }
  }

  lemma RotateZero(c: seq<Vertex>)
    ensures Rotate(c, 0) == c
  {
  }

  lemma RotateBack(c: seq<Vertex>, k: nat)
    requires 0 < k < |c|
    ensures Rotate(Rotate(c, k), |c| - k) == c
  {
    RotateCompose(c, k, |c| - k);
    RotateZero(c);
  }

  // ----- the two searches -----

  /** Prod10's search: the first permutation of `vertices` that is a closed
      cycle, if any (prod_10.py:25-33). */
  method FindCycle(edges: set<Edge>, vertices: seq<Vertex>) returns (c: Option<seq<Vertex>>)
    ensures c.Some? ==> multiset(c.value) == multiset(vertices) && IsClosedCycle(edges, c.value)
    ensures c.None? ==> forall p :: multiset(p) == multiset(vertices) ==> !IsClosedCycle(edges, p)
  {
    var perms := Permutations(vertices);
    for i := 0 to |perms|
      invariant forall j :: 0 <= j < i ==> !IsClosedCycle(edges, perms[j])
    {
      var ok := CheckCycle(edges, perms[i]);
      if ok {
        assert perms[i] in perms;
        return Some(perms[i]);
      }
    }
    forall p | multiset(p) == multiset(vertices) ensures !IsClosedCycle(edges, p) {
      PermutationsComplete(vertices, p);
    }
    return None;
  }

  /** Every permutation of a listing of `vs` has `|vs|` elements. */
  lemma PermutationLength(vs: set<Vertex>, vertices: seq<Vertex>, p: seq<Vertex>)
    requires Arranges(vertices, vs) && p in Permutations(vertices)
    ensures |p| == |vs| && Arranges(p, vs)
  {
    assert |multiset(p)| == |p| && |multiset(vs)| == |vs|;
  }

  /** A canonical rotation of a permutation of a listing of `vs` arranges `vs`. */
  lemma CanonicalOfPermutation(vs: set<Vertex>, vertices: seq<Vertex>, p: seq<Vertex>)
    requires |vs| > 0 && Arranges(vertices, vs) && p in Permutations(vertices)
    ensures |p| > 0 && Arranges(CanonicalRotation(p), vs)
  {
    PermutationLength(vs, vertices, p);
    CanonicalRotationPermutes(p);
  }

  /** An arrangement of `vs` is enumerated, and its canonical rotation is closed
      exactly when it is. */
  lemma ArrangementCanonical(edges: set<Edge>, vs: set<Vertex>, vertices: seq<Vertex>, p: seq<Vertex>)
    requires |vs| > 0 && Arranges(vertices, vs) && Arranges(p, vs)
    ensures p in Permutations(vertices) && |p| > 0
    ensures IsClosedCycle(edges, CanonicalRotation(p)) <==> IsClosedCycle(edges, p)
  {
    PermutationsComplete(vertices, p);
    PermutationLength(vs, vertices, p);
    var k :| 0 <= k < |p| && CanonicalRotation(p) == Rotate(p, k);
    ClosedCycleRotationInvariant(edges, p, k);
  }

  /** The set `unique_cycles` of prod_0.py:37-39: the canonical rotation of
      every enumerated permutation. */
  method CanonicalCycles(perms: seq<seq<Vertex>>) returns (cycles: set<seq<Vertex>>)
    requires forall j :: 0 <= j < |perms| ==> |perms[j]| > 0
    ensures forall j :: 0 <= j < |perms| ==> CanonicalRotation(perms[j]) in cycles
    ensures forall u :: u in cycles ==> exists j :: 0 <= j < |perms| && u == CanonicalRotation(perms[j])
  {
    cycles := {};
    for i := 0 to |perms|
      invariant forall j :: 0 <= j < i ==> CanonicalRotation(perms[j]) in cycles
      invariant forall u :: u in cycles ==> exists j :: 0 <= j < i && u == CanonicalRotation(perms[j])
    {
      cycles := cycles + {CanonicalRotation(perms[i])};
    }
  }

  /** Prod0's search (prod_0.py:37-48): the canonical rotations of all
      permutations of `vs` are collected into a set and checked one by one.
      Because a rotation of a closed cycle is closed, a cycle is found exactly
      when some ordering of `vs` is a closed cycle. */
  method FindCanonicalCycle(edges: set<Edge>, vs: set<Vertex>) returns (found: bool)
    requires |vs| > 0
    ensures found <==> HasBoundaryCycle(edges, vs)
  {
    var vertices := ListVertices(vs);
    var perms := Permutations(vertices);
    forall j | 0 <= j < |perms| ensures |perms[j]| > 0 {
      assert perms[j] in perms;
      PermutationLength(vs, vertices, perms[j]);
    }
    var uniqueCycles := CanonicalCycles(perms);
    found := false;
    var rest := uniqueCycles;
    while rest != {}
      invariant rest <= uniqueCycles
      invariant forall u :: u in uniqueCycles && u !in rest ==> !IsClosedCycle(edges, u)
      invariant found ==> HasBoundaryCycle(edges, vs)
      decreases rest
    {
      var u :| u in rest;
      found := CheckCycle(edges, u);
      if found {
        ghost var j :| 0 <= j < |perms| && u == CanonicalRotation(perms[j]);
        assert perms[j] in perms;
        CanonicalOfPermutation(vs, vertices, perms[j]);
        assert Arranges(u, vs) && IsClosedCycle(edges, u);
        break;
      }
      rest := rest - {u};
    }
    if !found {
      NoClosedCanonicalRotation(edges, vs, vertices, uniqueCycles);
    }
  }

  /** If no canonical rotation of an enumerated permutation is closed, `vs`
      has no boundary cycle. */
  lemma NoClosedCanonicalRotation(edges: set<Edge>, vs: set<Vertex>, vertices: seq<Vertex>, cycles: set<seq<Vertex>>)
    requires |vs| > 0 && Arranges(vertices, vs)
    requires forall j :: 0 <= j < |Permutations(vertices)| ==>
               |Permutations(vertices)[j]| > 0 && CanonicalRotation(Permutations(vertices)[j]) in cycles
    requires forall u :: u in cycles ==> !IsClosedCycle(edges, u)
    ensures !HasBoundaryCycle(edges, vs)
  {
    forall p | Arranges(p, vs) ensures !IsClosedCycle(edges, p) {
      ArrangementCanonical(edges, vs, vertices, p);
      var j :| 0 <= j < |Permutations(vertices)| && Permutations(vertices)[j] == p;
      assert CanonicalRotation(p) in cycles;
    }
  }
}
