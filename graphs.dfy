/**
 * Undirected graphs as the vertex-cover solvers of vertex_cover.py see them:
 * a list of edges between integer node ids, and the list comprehension every
 * solver applies to its residual edges, which keeps the edges with neither
 * endpoint in the cover.
 */
module Graphs {

  /** An edge as networkx reports it: the pair `(edge[0], edge[1])`. */
  datatype Edge = Edge(u: int, v: int)

  /** `e` has an endpoint in `c`. */
  predicate Touches(e: Edge, c: set<int>)
  {
    e.u in c || e.v in c
  }

  /** `c` is a vertex cover of `edges`: every edge has an endpoint in `c`. */
  predicate IsCover(edges: seq<Edge>, c: set<int>)
  {
    forall e :: e in edges ==> Touches(e, c)
  }

  predicate NoSelfLoops(edges: seq<Edge>)
  {
    forall e :: e in edges ==> e.u != e.v
  }

  /** The nodes that are an endpoint of some edge. */
  function Endpoints(edges: seq<Edge>): set<int>
  {
    (set e | e in edges :: e.u) + (set e | e in edges :: e.v)
  }

  /** The set of the elements of a sequence of nodes. */
  function Elems(s: seq<int>): set<int>
  {
    set x | x in s
  }

  /**
   * The list comprehension that drops every edge with an endpoint in the
   * cover `c`, keeping the order of the others.
   */
  function Uncovered(es: seq<Edge>, c: set<int>): (r: seq<Edge>)
    ensures |r| <= |es|
    ensures forall e :: e in r <==> e in es && !Touches(e, c)
  {
    if es == [] then []
    else if Touches(es[0], c) then Uncovered(es[1..], c)
    else [es[0]] + Uncovered(es[1..], c)
  }

  /** Nothing is left uncovered exactly when `c` covers every edge. */
  lemma NothingUncoveredIffCover(es: seq<Edge>, c: set<int>)
    ensures Uncovered(es, c) == [] <==> IsCover(es, c)
  {
    var r := Uncovered(es, c);
    if r != [] {
      assert r[0] in r;
    }
  }

  /** Filtering with an empty cover keeps every edge. */
  lemma {:induction false} UncoveredByNothing(es: seq<Edge>)
    ensures Uncovered(es, {}) == es
  {
    if es != [] {
      UncoveredByNothing(es[1..]);
    }
  }

  /** Filtering twice is filtering once by the union of the two covers. */
  lemma {:induction false} UncoveredTwice(es: seq<Edge>, a: set<int>, b: set<int>)
    ensures Uncovered(Uncovered(es, a), b) == Uncovered(es, a + b)
  {
    if es != [] {
      UncoveredTwice(es[1..], a, b);
      if !Touches(es[0], a) {
        var rest := Uncovered(es[1..], a);
        assert ([es[0]] + rest)[0] == es[0];
        assert ([es[0]] + rest)[1..] == rest;
      }
    }
  }

  /**
   * Taking out an edge that the cover already touches does not change what
   * the filter keeps: popping the edge and then filtering is the same as
   * filtering alone.
   */
  lemma {:induction false} UncoveredWithoutTouching(es: seq<Edge>, k: nat, c: set<int>)
    requires k < |es| && Touches(es[k], c)
    ensures Uncovered(es[..k] + es[k + 1..], c) == Uncovered(es, c)
  {
    if k == 0 {
      assert es[..0] + es[1..] == es[1..];
    } else {
      UncoveredWithoutTouching(es[1..], k - 1, c);
      var s := es[..k] + es[k + 1..];
      assert s[0] == es[0];
      assert s[1..] == es[1..][..k - 1] + es[1..][k..];
    }
  }

  /** Adding an edge adds its two endpoints. */
  lemma EndpointsAppend(m: seq<Edge>, e: Edge)
    ensures Endpoints(m + [e]) == Endpoints(m) + {e.u, e.v}
  {
    forall x | x in Endpoints(m + [e]) ensures x in Endpoints(m) + {e.u, e.v} {
      var f :| f in m + [e] && (f.u == x || f.v == x);
      if f != e {
        assert f in m;
      }
    }
    forall x | x in Endpoints(m) ensures x in Endpoints(m + [e]) {
      var f :| f in m && (f.u == x || f.v == x);
      assert f in m + [e];
    }
    assert e in m + [e];
  }

  lemma ElemsAppend(s: seq<int>, x: int)
    ensures Elems(s + [x]) == Elems(s) + {x}
  {
    assert forall y :: y in s + [x] <==> y in s || y == x;
  }
}
