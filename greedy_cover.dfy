/**
 * `greedy_vc`: repeatedly take a node of maximum degree in the residual graph
 * `G`, remove it from `G` and put it into the cover.
 */
module GreedyCover {
  import opened Graphs

  /** networkx's degree of `v` in a graph with edges `es`; a self-loop counts twice. */
  function Degree(es: seq<Edge>, v: int): nat
  {
    if es == [] then 0
    else (if es[0].u == v then 1 else 0) + (if es[0].v == v then 1 else 0) + Degree(es[1..], v)
  }

  /**
   * The degree counts the edges that removing `v` drops, a self-loop twice:
   * it lies between their number and twice it, and equals it when there are
   * no self-loops.
   */
  lemma {:induction false} DegreeCountsIncidentEdges(es: seq<Edge>, v: int)
    ensures |es| - |Uncovered(es, {v})| <= Degree(es, v) <= 2 * (|es| - |Uncovered(es, {v})|)
    ensures NoSelfLoops(es) ==> Degree(es, v) == |es| - |Uncovered(es, {v})|
  {
    if es != [] {
      DegreeCountsIncidentEdges(es[1..], v);
      if NoSelfLoops(es) {
        assert forall e :: e in es[1..] ==> e in es;
        assert es[0] in es;
      }
    }
  }

  /** A node has positive degree exactly when some edge is incident to it. */
  lemma {:induction false} DegreePositive(es: seq<Edge>, v: int)
    ensures Degree(es, v) > 0 <==> exists e :: e in es && Touches(e, {v})
  {
    if es != [] {
      DegreePositive(es[1..], v);
      var h := es[0];
      if Touches(h, {v}) {
        assert h in es;
      } else {
        assert Degree(es, v) == Degree(es[1..], v);
        forall e | e in es && Touches(e, {v}) ensures e in es[1..] {
          var i :| 0 <= i < |es| && es[i] == e;
          assert es[1..][i - 1] == e;
        }
        assert forall e :: e in es[1..] ==> e in es;
      }
    }
  }

  /** Removing a node drops an edge exactly when the node has positive degree. */
  lemma {:induction false} RemovalShrinks(es: seq<Edge>, v: int)
    ensures Degree(es, v) > 0 <==> |Uncovered(es, {v})| < |es|
  {
    if es != [] {
      RemovalShrinks(es[1..], v);
    }
  }

  /**
   * The position in `nodes` of the node `greedy_vc` takes: the first entry of
   * the (node, degree) pairs sorted by degree in descending order. That is a
   * node of maximum degree and, because the sort is stable, the first such
   * node in node order.
   */
  function MaxDegreeIndex(nodes: seq<int>, es: seq<Edge>): (k: nat)
    requires nodes != []
    ensures k < |nodes|
    ensures forall j :: 0 <= j < |nodes| ==> Degree(es, nodes[j]) <= Degree(es, nodes[k])
    ensures forall j :: 0 <= j < k ==> Degree(es, nodes[j]) < Degree(es, nodes[k])
  {
    if |nodes| == 1 then 0
    else
      var k := 1 + MaxDegreeIndex(nodes[1..], es);
      if Degree(es, nodes[0]) >= Degree(es, nodes[k]) then 0 else k
  }

  /** The two properties of the sort's first entry determine it: there is one such position. */
  lemma MaxDegreeIndexUnique(nodes: seq<int>, es: seq<Edge>, k: nat)
    requires k < |nodes|
    requires forall j :: 0 <= j < |nodes| ==> Degree(es, nodes[j]) <= Degree(es, nodes[k])
    requires forall j :: 0 <= j < k ==> Degree(es, nodes[j]) < Degree(es, nodes[k])
    ensures k == MaxDegreeIndex(nodes, es)
  {
    var m := MaxDegreeIndex(nodes, es);
    assert Degree(es, nodes[m]) <= Degree(es, nodes[k]);
    assert Degree(es, nodes[k]) <= Degree(es, nodes[m]);
  }

  /** The nodes of `s` outside `c`, in order. */
  function Without(s: seq<int>, c: set<int>): (r: seq<int>)
    ensures forall x :: x in r <==> x in s && x !in c
  {
    if s == [] then []
    else if s[0] in c then Without(s[1..], c)
    else [s[0]] + Without(s[1..], c)
  }

  lemma {:induction false} WithoutNothing(s: seq<int>)
    ensures Without(s, {}) == s
  {
    if s != [] {
      WithoutNothing(s[1..]);
    }
  }

  lemma {:induction false} WithoutTwice(s: seq<int>, a: set<int>, b: set<int>)
    ensures Without(Without(s, a), b) == Without(s, a + b)
  {
    if s != [] {
      WithoutTwice(s[1..], a, b);
      if s[0] !in a {
        var rest := Without(s[1..], a);
        assert ([s[0]] + rest)[0] == s[0];
        assert ([s[0]] + rest)[1..] == rest;
      }
    }
  }

  /**
   * The node `greedy_vc` takes from the residual graph left after the nodes of
   * `removed` are gone: the first node of maximum degree.
   */
  predicate GreedyPick(nodes: seq<int>, edges: seq<Edge>, removed: set<int>, v: int)
  {
    var rn := Without(nodes, removed);
    var re := Uncovered(edges, removed);
    re != [] && rn != [] && v == rn[MaxDegreeIndex(rn, re)]
  }

  /** The `i`-th entry of `order` is the pick made after the entries before it. */
  predicate PickAt(nodes: seq<int>, edges: seq<Edge>, order: seq<int>, i: nat)
  {
    i < |order| && GreedyPick(nodes, edges, Elems(order[..i]), order[i])
  }

  /** `order` lists the picks `greedy_vc` makes, one per iteration, on the graph `(nodes, edges)`. */
  predicate IsGreedyRun(nodes: seq<int>, edges: seq<Edge>, order: seq<int>)
  {
    forall i: nat :: i < |order| ==> PickAt(nodes, edges, order, i)
  }

  /**
   * Greedy is deterministic: two complete runs on the same graph pick the same
   * nodes in the same order.
   */
  lemma GreedyDeterministic(nodes: seq<int>, edges: seq<Edge>, o1: seq<int>, o2: seq<int>)
    requires IsGreedyRun(nodes, edges, o1) && IsCover(edges, Elems(o1))
    requires IsGreedyRun(nodes, edges, o2) && IsCover(edges, Elems(o2))
    ensures o1 == o2
  {
    var n := if |o1| < |o2| then |o1| else |o2|;
    SamePrefix(nodes, edges, o1, o2, n);
    if |o1| < |o2| {
      assert o2[..|o1|] == o1[..|o1|] == o1;
      assert PickAt(nodes, edges, o2, |o1|);
      assert GreedyPick(nodes, edges, Elems(o2[..|o1|]), o2[|o1|]);
      NothingUncoveredIffCover(edges, Elems(o1));
    } else if |o2| < |o1| {
      assert o1[..|o2|] == o2[..|o2|] == o2;
      assert PickAt(nodes, edges, o1, |o2|);
      assert GreedyPick(nodes, edges, Elems(o1[..|o2|]), o1[|o2|]);
      NothingUncoveredIffCover(edges, Elems(o2));
    } else {
      assert o1 == o1[..n] && o2 == o2[..n];
    }
  }

  /** Two greedy runs agree on every common position. */
  lemma {:induction false} SamePrefix(nodes: seq<int>, edges: seq<Edge>, o1: seq<int>, o2: seq<int>, n: nat)
    requires IsGreedyRun(nodes, edges, o1) && IsGreedyRun(nodes, edges, o2)
    requires n <= |o1| && n <= |o2|
    ensures o1[..n] == o2[..n]
  {
    if n > 0 {
      SamePrefix(nodes, edges, o1, o2, n - 1);
      assert o1[..n - 1] == o2[..n - 1];
      assert PickAt(nodes, edges, o1, n - 1) && PickAt(nodes, edges, o2, n - 1);
      assert GreedyPick(nodes, edges, Elems(o1[..n - 1]), o1[n - 1]);
      assert GreedyPick(nodes, edges, Elems(o2[..n - 1]), o2[n - 1]);
      assert o1[..n] == o1[..n - 1] + [o1[n - 1]];
      assert o2[..n] == o2[..n - 1] + [o2[n - 1]];
    }
  }

  /** The networkx graph `G` that `greedy_vc` shrinks with `G.remove_node`. */
  class ResidualGraph {
    /** The nodes in networkx's iteration order, which `G.degree` follows. */
    var nodes: seq<int>
    var edges: seq<Edge>

    /** Every edge joins two nodes of the graph, as in any networkx graph. */
    ghost predicate Valid()
      reads this
    {
      forall e :: e in edges ==> e.u in nodes && e.v in nodes
    }

    constructor (nodes: seq<int>, edges: seq<Edge>)
      requires forall e :: e in edges ==> e.u in nodes && e.v in nodes
      ensures Valid()
      ensures this.nodes == nodes && this.edges == edges
    {
      this.nodes := nodes;
      this.edges := edges;
    }

    /** `G.remove_node(v)`: drops `v` and every edge incident to it. */
    method RemoveNode(v: int)
      requires Valid() && v in nodes
      modifies this
      ensures Valid()
      ensures nodes == Without(old(nodes), {v})
      ensures edges == Uncovered(old(edges), {v})
    {
      nodes := Without(nodes, {v});
      edges := Uncovered(edges, {v});
    }
  }

  /**
   * `greedy_vc` on the graph with node order `nodes` and edges `edges`.
   * `order` records the chosen nodes.
   */
  method GreedyVc(nodes: seq<int>, edges: seq<Edge>) returns (cover: set<int>, ghost order: seq<int>)
    requires forall e :: e in edges ==> e.u in nodes && e.v in nodes
    ensures IsCover(edges, cover)
    ensures cover == Elems(order) && |cover| == |order|
    ensures IsGreedyRun(nodes, edges, order)
    ensures cover <= Endpoints(edges)
  {
    var g := new ResidualGraph(nodes, edges);
    cover := {};
    order := [];
    var uncovered := g.edges;
    UncoveredByNothing(edges);
    WithoutNothing(nodes);
    while uncovered != []
      invariant g.Valid()
      invariant g.nodes == Without(nodes, cover)
      invariant g.edges == Uncovered(edges, cover)
      invariant uncovered == g.edges
      invariant cover == Elems(order) && |cover| == |order|
      invariant IsGreedyRun(nodes, edges, order)
      invariant cover <= Endpoints(edges)
      decreases |uncovered|
    {
      assert g.edges[0] in g.edges;
      var node := g.nodes[MaxDegreeIndex(g.nodes, g.edges)];
      GreedyStep(nodes, edges, cover, order, node);
      g.RemoveNode(node);
      cover := cover + {node};
      order := order + [node];
      // The comprehension filters the edges of `G` (a live view of the graph
      // on the first pass, the previous list later); both give the residual edges.
      uncovered := Uncovered(uncovered, cover);
    }
    NothingUncoveredIffCover(edges, cover);
  }

  /** One iteration of `greedy_vc` keeps its loop invariant and removes at least one edge. */
  lemma GreedyStep(nodes: seq<int>, edges: seq<Edge>, cover: set<int>, order: seq<int>, node: int)
    requires forall e :: e in Uncovered(edges, cover) ==> e.u in Without(nodes, cover) && e.v in Without(nodes, cover)
    requires cover == Elems(order) && |cover| == |order|
    requires IsGreedyRun(nodes, edges, order)
    requires cover <= Endpoints(edges)
    requires Uncovered(edges, cover) != []
    requires Without(nodes, cover) != []
    requires node == Without(nodes, cover)[MaxDegreeIndex(Without(nodes, cover), Uncovered(edges, cover))]
    ensures node in Without(nodes, cover)
    ensures Without(Without(nodes, cover), {node}) == Without(nodes, cover + {node})
    ensures Uncovered(Uncovered(edges, cover), {node}) == Uncovered(edges, cover + {node})
    ensures Uncovered(Uncovered(edges, cover), cover + {node}) == Uncovered(edges, cover + {node})
    ensures |Uncovered(edges, cover + {node})| < |Uncovered(edges, cover)|
    ensures cover + {node} == Elems(order + [node]) && |cover + {node}| == |order + [node]|
    ensures IsGreedyRun(nodes, edges, order + [node])
    ensures cover + {node} <= Endpoints(edges)
  {
    var rn := Without(nodes, cover);
    var re := Uncovered(edges, cover);
    var cover' := cover + {node};
    PickedNodeHasEdge(rn, re, node);
    RemovalShrinks(re, node);
    DegreePositive(re, node);
    var e :| e in re && Touches(e, {node});
    assert e in edges;
    WithoutTwice(nodes, cover, {node});
    UncoveredTwice(edges, cover, {node});
    UncoveredTwice(edges, cover, cover');
    assert cover + cover' == cover';
    ElemsAppend(order, node);
    GreedyRunGrows(nodes, edges, order, node);
  }

  /**
   * While residual edges remain, the node of maximum degree has degree at
   * least 1: some edge has an endpoint among the nodes.
   */
  lemma PickedNodeHasEdge(rn: seq<int>, re: seq<Edge>, node: int)
    requires forall e :: e in re ==> e.u in rn && e.v in rn
    requires re != [] && rn != []
    requires node == rn[MaxDegreeIndex(rn, re)]
    ensures Degree(re, node) > 0
  {
    var e0 := re[0];
    assert e0 in re;
    var j :| 0 <= j < |rn| && rn[j] == e0.u;
    DegreePositive(re, e0.u);
  }

  /** A greedy run extended by the next greedy pick is a greedy run. */
  lemma GreedyRunGrows(nodes: seq<int>, edges: seq<Edge>, order: seq<int>, node: int)
    requires IsGreedyRun(nodes, edges, order)
    requires GreedyPick(nodes, edges, Elems(order), node)
    ensures IsGreedyRun(nodes, edges, order + [node])
  {
    var order' := order + [node];
    forall i: nat | i < |order'| ensures PickAt(nodes, edges, order', i) {
      if i < |order| {
        assert PickAt(nodes, edges, order, i);
        assert order'[..i] == order[..i];
      } else {
        assert order'[..i] == order;
      }
    }
  }
}
