/**
 * `canonical_rotation` (hypergrammar/utils.py) and the string order it relies on.
 *
 * `min` over vertex names uses Python's string comparison: lexicographic by
 * code point, a proper prefix being smaller. Dafny's `<` on sequences means
 * "proper prefix", so the order is defined here as `StrLe`.
 */
module Utils {

  /** Python's `a <= b` on strings. */
  predicate StrLe(a: string, b: string)
    decreases |a|
  {
    if |a| == 0 then true
    else if |b| == 0 then false
    else if a[0] != b[0] then a[0] < b[0]
    else StrLe(a[1..], b[1..])
  }

  /** Python's `a < b` on strings. */
  predicate StrLt(a: string, b: string)
  {
    StrLe(a, b) && a != b
  }

  lemma {:induction false} StrLeReflexive(a: string)
    ensures StrLe(a, a)
  {
    if |a| > 0 {
      StrLeReflexive(a[1..]);
    }
  }

  lemma {:induction false} StrLeTotal(a: string, b: string)
    ensures StrLe(a, b) || StrLe(b, a)
  {
    if |a| > 0 && |b| > 0 && a[0] == b[0] {
      StrLeTotal(a[1..], b[1..]);
    }
  }

  lemma {:induction false} StrLeAntisymmetric(a: string, b: string)
    requires StrLe(a, b) && StrLe(b, a)
    ensures a == b
  {
    if |a| > 0 && |b| > 0 {
      StrLeAntisymmetric(a[1..], b[1..]);
      assert a == [a[0]] + a[1..] && b == [b[0]] + b[1..];
    }
  }

  lemma {:induction false} StrLeTransitive(a: string, b: string, c: string)
    requires StrLe(a, b) && StrLe(b, c)
    ensures StrLe(a, c)
  {
    if |a| > 0 && |b| > 0 && |c| > 0 && a[0] == b[0] && b[0] == c[0] {
      StrLeTransitive(a[1..], b[1..], c[1..]);
    }
  }

  /** `min(s)`: scans left to right and replaces the current minimum only by a
      strictly smaller element. */
  function Minimum(s: seq<string>): (m: string)
    requires |s| > 0
    ensures m in s
    ensures forall x :: x in s ==> StrLe(m, x)
  {
    if |s| == 1 then
      StrLeReflexive(s[0]);
      s[0]
    else
      var init := s[..|s| - 1];
      var last := s[|s| - 1];
      var m' := Minimum(init);
      assert s == init + [last];
      if StrLt(last, m') then
        forall x | x in init ensures StrLe(last, x) {
          StrLeTransitive(last, m', x);
        }
        StrLeReflexive(last);
        last
      else
        StrLeTotal(last, m');
        StrLeReflexive(m');
        m'
  }

  /** `s.index(x)`: the first position holding `x`. */
  function IndexOf(s: seq<string>, x: string): (i: nat)
    requires x in s
    ensures i < |s| && s[i] == x
    ensures forall j :: 0 <= j < i ==> s[j] != x
  {
    if s[0] == x then 0 else 1 + IndexOf(s[1..], x)
  }

  /** `s[k:] + s[:k]`: position `i` of the result holds `s[(i + k) % |s|]`. */
  function Rotate(s: seq<string>, k: nat): (r: seq<string>)
    requires k <= |s|
    ensures |r| == |s|
    ensures forall i :: 0 <= i < |s| ==> r[i] == s[(i + k) % |s|]
  {
    var r := s[k..] + s[..k];
    forall i | 0 <= i < |s| ensures r[i] == s[(i + k) % |s|] {
      ModSmall(i + k, |s|);
    }
    r
  }

  lemma ModSmall(a: int, n: int)
    requires 0 < n && 0 <= a < 2 * n
    ensures a % n == if a < n then a else a - n
  {
  }

  ghost predicate IsRotationOf(r: seq<string>, s: seq<string>)
  {
    exists k :: 0 <= k < |s| && r == Rotate(s, k)
  }

  /** `canonical_rotation(s)`: the rotation of `s` that starts at the first
      occurrence of its minimum. */
  function CanonicalRotation(s: seq<string>): (r: seq<string>)
    requires |s| > 0
    ensures |r| == |s| && IsRotationOf(r, s)
    ensures forall x :: x in s ==> StrLe(r[0], x)
  {
    var k := IndexOf(s, Minimum(s));
    Rotate(s, k)
  }

  /** The canonical rotation is a permutation of its input. */
  lemma CanonicalRotationPermutes(s: seq<string>)
    requires |s| > 0
    ensures multiset(CanonicalRotation(s)) == multiset(s)
  {
    var k :| 0 <= k < |s| && CanonicalRotation(s) == Rotate(s, k);
    RotationElements(s, k);
  }

  /** Elements of the canonical rotation are those of the input. */
  lemma SameElements(r: seq<string>, s: seq<string>)
    requires multiset(r) == multiset(s)
    ensures forall x :: x in r <==> x in s
  {
    forall x ensures x in r <==> x in s {
      assert x in r <==> x in multiset(r);
      assert x in s <==> x in multiset(s);
    }
  }

  /** The minimum of a sequence is determined by its elements alone. */
  lemma {:induction false} MinimumOfSameElements(r: seq<string>, s: seq<string>)
    requires |r| > 0 && |s| > 0
    requires forall x :: x in r <==> x in s
    ensures Minimum(r) == Minimum(s)
  {
    StrLeAntisymmetric(Minimum(r), Minimum(s));
  }

  /** Canonicalising twice is canonicalising once. */
  lemma {:induction false} CanonicalRotationIdempotent(s: seq<string>)
    requires |s| > 0
    ensures CanonicalRotation(CanonicalRotation(s)) == CanonicalRotation(s)
  {
    var r := CanonicalRotation(s);
    CanonicalRotationPermutes(s);
    SameElements(r, s);
    StrLeAntisymmetric(Minimum(r), r[0]);
    assert IndexOf(r, Minimum(r)) == 0;
    assert Rotate(r, 0) == r;
  }

  ghost predicate Distinct(s: seq<string>)
  {
    forall i, j :: 0 <= i < j < |s| ==> s[i] != s[j]
  }

  /** A rotation lists the same elements. */
  lemma RotationElements(s: seq<string>, k: nat)
    requires k <= |s|
    ensures multiset(Rotate(s, k)) == multiset(s)
  {
    assert s == s[..k] + s[k..];
  }

  /** Rotating by `q` after rotating by `k` is rotating by `(q + k) % |s|`. */
  lemma RotateCompose(s: seq<string>, k: nat, q: nat)
    requires k < |s| && q < |s|
    ensures Rotate(Rotate(s, k), q) == Rotate(s, (q + k) % |s|)
  {
    var n := |s|;
    ModSmall(q + k, n);
    forall i | 0 <= i < n ensures Rotate(Rotate(s, k), q)[i] == Rotate(s, (q + k) % n)[i] {
      ModSmall(i + q, n);
      ModSmall((i + q) % n + k, n);
      ModSmall(i + (q + k) % n, n);
    }
  }

  /** The canonical rotation of a rotation of `s` is the rotation of `s` that
      starts at an occurrence of the minimum of `s`. */
  lemma CanonicalRotationOfRotationStart(s: seq<string>, k: nat) returns (pq: nat)
    requires |s| > 0 && k < |s|
    ensures pq < |s| && s[pq] == Minimum(s)
    ensures CanonicalRotation(Rotate(s, k)) == Rotate(s, pq)
  {
    var n := |s|;
    var t := Rotate(s, k);
    RotationElements(s, k);
    SameElements(t, s);
    MinimumOfSameElements(t, s);
    var q := IndexOf(t, Minimum(t));
    pq := (q + k) % n;
    RotateCompose(s, k, q);
    assert t[q] == s[pq];
  }

  /** For a sequence of distinct vertex names, every rotation has the same
      canonical rotation, so it identifies a cyclic order up to rotation. */
  lemma {:induction false} CanonicalRotationOfRotation(s: seq<string>, k: nat)
    requires |s| > 0 && k < |s| && Distinct(s)
    ensures CanonicalRotation(Rotate(s, k)) == CanonicalRotation(s)
  {
    var pq := CanonicalRotationOfRotationStart(s, k);
    DistinctIndex(s, pq, IndexOf(s, Minimum(s)));
  }

  lemma DistinctIndex(s: seq<string>, a: nat, b: nat)
    requires Distinct(s) && a < |s| && b < |s| && s[a] == s[b]
    ensures a == b
  {
  }
}
